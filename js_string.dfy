/** The string operations the conversions are built from (`String.prototype` methods and the effect of the
    regular-expression `replace`, `match` and `split` calls they make), as functions on `seq<char>`.
    A character class is a predicate `p: char -> bool`; module Unicode supplies the ones the source uses. */
module JsString {

  predicate All(s: string, p: char -> bool) {
    forall i :: 0 <= i < |s| ==> p(s[i])
  }

  predicate NoneOf(s: string, p: char -> bool) {
    forall i :: 0 <= i < |s| ==> !p(s[i])
  }

  /** `d` never stands twice in a row in `s`. */
  predicate NoDouble(s: string, d: char) {
    forall i, j :: 0 <= i < |s| && 0 <= j < |s| && j == i + 1 ==> s[i] != d || s[j] != d
  }

  /** The class of one character, as in `split(' ')` or `/-+/` */
  function IsChar(d: char): char -> bool { c => c == d }

  /** Each word is non-empty and made of `p`-characters only. */
  predicate Words(ws: seq<string>, p: char -> bool) {
    forall i :: 0 <= i < |ws| ==> ws[i] != [] && All(ws[i], p)
  }

  /** `toLowerCase()` and `toUpperCase()`, one character at a time */
  function MapChars(s: string, f: char -> char): (r: string)
    ensures |r| == |s|
    ensures forall i :: 0 <= i < |s| ==> r[i] == f(s[i])
  {
    if s == [] then [] else [f(s[0])] + MapChars(s[1..], f)
  }

  /** `s.replace(/[class]/g, '')` and `s.replace(/[class]+/g, '')`: every `p`-character removed, the others kept in order */
  function Delete(s: string, p: char -> bool): (r: string)
    ensures |r| <= |s|
    ensures NoneOf(r, p)
    ensures NoneOf(s, p) ==> r == s
    ensures All(s, p) ==> r == []
  {
    if s == [] then [] else (if p(s[0]) then [] else [s[0]]) + Delete(s[1..], p)
  }

  /** `s.replace(/[class]+/g, rep)`: every maximal run of `p`-characters becomes one copy of `rep`.
      The recursion emits `rep` at the last character of a run. */
  function ReplaceRuns(s: string, p: char -> bool, rep: string): (r: string)
    ensures NoneOf(s, p) ==> r == s
    ensures s != [] && !p(s[0]) ==> r != [] && r[0] == s[0]
  {
    if s == [] then []
    else if !p(s[0]) then [s[0]] + ReplaceRuns(s[1..], p, rep)
    else if |s| > 1 && p(s[1]) then ReplaceRuns(s[1..], p, rep)
    else rep + ReplaceRuns(s[1..], p, rep)
  }

  /** `s.split(sep)` (a one-character separator, generalised to a class): the pieces between separator
      characters, empty pieces included; there is always at least one piece. */
  function SplitBy(s: string, p: char -> bool): (r: seq<string>)
    ensures |r| >= 1
    ensures NoneOf(s, p) ==> r == [s]
  {
    if s == [] then [[]]
    else
      var rest := SplitBy(s[1..], p);
      if p(s[0]) then [[]] + rest
      else assert s == [s[0]] + s[1..]; [[s[0]] + rest[0]] + rest[1..]
  }

  /** `ws.join(sep)` */
  function Join(ws: seq<string>, sep: string): string {
    if ws == [] then []
    else if |ws| == 1 then ws[0]
    else ws[0] + sep + Join(ws[1..], sep)
  }

  /** `ws.filter(Boolean)`: the non-empty words, in order */
  function NonEmpty(ws: seq<string>): (r: seq<string>)
    ensures |r| <= |ws|
    ensures forall i :: 0 <= i < |r| ==> r[i] != [] && r[i] in ws
    ensures (forall i :: 0 <= i < |ws| ==> ws[i] != []) ==> r == ws
  {
    if ws == [] then [] else (if ws[0] == [] then [] else [ws[0]]) + NonEmpty(ws[1..])
  }

  /** `ws.map(w => w.toLowerCase())` */
  function MapEach(ws: seq<string>, f: char -> char): (r: seq<string>)
    ensures |r| == |ws|
    ensures forall i :: 0 <= i < |ws| ==> r[i] == MapChars(ws[i], f)
  {
    if ws == [] then [] else [MapChars(ws[0], f)] + MapEach(ws[1..], f)
  }

  /** `ws.map(w => w.replace(/[class]/g, '').toLowerCase())` */
  function CleanEach(ws: seq<string>, p: char -> bool, f: char -> char): (r: seq<string>)
    ensures |r| == |ws|
    ensures forall i :: 0 <= i < |ws| ==> r[i] == MapChars(Delete(ws[i], p), f)
  {
    if ws == [] then [] else [MapChars(Delete(ws[0], p), f)] + CleanEach(ws[1..], p, f)
  }

  /** `w.charAt(0).toUpperCase() + w.slice(1)` */
  function Capitalize(w: string, f: char -> char): (r: string)
    ensures |r| == |w|
    ensures w != [] ==> r[0] == f(w[0]) && r[1..] == w[1..]
  {
    if w == [] then [] else [f(w[0])] + w[1..]
  }

  /** `ws.map(w => w.charAt(0).toUpperCase() + w.slice(1))` */
  function CapitalizeEach(ws: seq<string>, f: char -> char): (r: seq<string>)
    ensures |r| == |ws|
    ensures forall i :: 0 <= i < |ws| ==> r[i] == Capitalize(ws[i], f)
  {
    if ws == [] then [] else [Capitalize(ws[0], f)] + CapitalizeEach(ws[1..], f)
  }

  /** Drops the leading `p`-characters. */
  function TrimStart(s: string, p: char -> bool): (r: string)
    ensures |r| <= |s| && r == s[|s| - |r|..]
    ensures All(s[..|s| - |r|], p)
    ensures r != [] ==> !p(r[0])
  {
    if s != [] && p(s[0]) then TrimStart(s[1..], p) else s
  }

  /** Drops the trailing `p`-characters. */
  function TrimEnd(s: string, p: char -> bool): (r: string)
    ensures |r| <= |s| && r == s[..|r|]
    ensures All(s[|r|..], p)
    ensures r != [] ==> !p(r[|r| - 1])
  {
    if s != [] && p(s[|s| - 1]) then TrimEnd(s[..|s| - 1], p) else s
  }

  /** `s.trim()` (with white space for `p`) and `s.replace(/^-+|-+$/g, '')` (with `-`) */
  function Trim(s: string, p: char -> bool): (r: string)
    ensures |r| <= |s|
    ensures r != [] ==> !p(r[0]) && !p(r[|r| - 1])
  {
    TrimEnd(TrimStart(s, p), p)
  }

  /** `s.match(/[class]+/g)`: the maximal runs of `p`-characters, in order. A `match` that finds nothing
      returns `null`; that is the empty list here. */
  function MatchRuns(s: string, p: char -> bool): (r: seq<string>)
    ensures Words(r, p)
    ensures s != [] && p(s[0]) ==> r != [] && r[0][0] == s[0]
  {
    if s == [] then []
    else
      var rest := MatchRuns(s[1..], p);
      if !p(s[0]) then rest
      else if |s| > 1 && p(s[1]) then [[s[0]] + rest[0]] + rest[1..]
      else [[s[0]]] + rest
  }

  // ---------------------------------------------------------------------------------------------------------
  // Concatenation laws

  lemma {:induction false} DeleteAppend(a: string, b: string, p: char -> bool)
    ensures Delete(a + b, p) == Delete(a, p) + Delete(b, p)
  {
    if a != [] {
      DeleteAppend(a[1..], b, p);
      DeleteAppendStep(a[0], a[1..], b, p);
      HeadTail(a);
    } else {
      assert a + b == b;
    }
  }

  lemma DeleteAppendStep(x: char, t: string, b: string, p: char -> bool)
    requires Delete(t + b, p) == Delete(t, p) + Delete(b, p)
    ensures Delete([x] + t + b, p) == Delete([x] + t, p) + Delete(b, p)
  {
    ConsFacts(x, t, b);
    var h := if p(x) then [] else [x];
    AppendAssoc(h, Delete(t, p), Delete(b, p));
  }

  lemma ConsFacts<T>(x: T, t: seq<T>, b: seq<T>)
    ensures ([x] + t)[0] == x && ([x] + t)[1..] == t
    ensures [x] + t + b == [x] + (t + b) && ([x] + (t + b))[0] == x && ([x] + (t + b))[1..] == t + b
  {
  }

  lemma AppendAssoc<T>(a: seq<T>, b: seq<T>, c: seq<T>)
    ensures a + (b + c) == a + b + c
  {
  }

  lemma MapCharsAppend(a: string, b: string, f: char -> char)
    ensures MapChars(a + b, f) == MapChars(a, f) + MapChars(b, f)
  {
  }

  lemma {:induction false} JoinCons(w: string, ws: seq<string>, sep: string)
    ensures Join([w] + ws, sep) == if ws == [] then w else w + sep + Join(ws, sep)
  {
    if ws != [] {
      assert ([w] + ws)[1..] == ws;
    }
  }

  lemma {:induction false} JoinAppend(a: seq<string>, b: seq<string>, sep: string)
    ensures Join(a + b, sep) ==
      if a == [] then Join(b, sep) else if b == [] then Join(a, sep) else Join(a, sep) + sep + Join(b, sep)
  {
    if a != [] && b != [] {
      assert a + b == [a[0]] + (a[1..] + b);
      JoinCons(a[0], a[1..] + b, sep);
      JoinAppend(a[1..], b, sep);
      JoinCons(a[0], a[1..], sep);
    } else if a == [] {
      assert a + b == b;
    } else {
      assert a + b == a;
    }
  }

  lemma {:induction false} NonEmptyAppend(a: seq<string>, b: seq<string>)
    ensures NonEmpty(a + b) == NonEmpty(a) + NonEmpty(b)
  {
    if a != [] {
      NonEmptyAppend(a[1..], b);
      NonEmptyAppendStep(a[0], a[1..], b);
      HeadTail(a);
    } else {
      assert a + b == b;
    }
  }

  lemma NonEmptyAppendStep(w: string, t: seq<string>, b: seq<string>)
    requires NonEmpty(t + b) == NonEmpty(t) + NonEmpty(b)
    ensures NonEmpty([w] + t + b) == NonEmpty([w] + t) + NonEmpty(b)
  {
    ConsFacts(w, t, b);
    AppendAssoc(if w == [] then [] else [w], NonEmpty(t), NonEmpty(b));
  }

  lemma CleanEachAppend(a: seq<string>, b: seq<string>, p: char -> bool, f: char -> char)
    ensures CleanEach(a + b, p, f) == CleanEach(a, p, f) + CleanEach(b, p, f)
  {
  }

  lemma MapEachAppend(a: seq<string>, b: seq<string>, f: char -> char)
    ensures MapEach(a + b, f) == MapEach(a, f) + MapEach(b, f)
  {
  }

  /** Deleting characters keeps whatever held of every character. */
  lemma {:induction false} DeleteKeeps(s: string, p: char -> bool, q: char -> bool)
    requires All(s, q)
    ensures All(Delete(s, p), q)
  {
    if s != [] {
      DeleteKeeps(s[1..], p, q);
      assert q(s[0]);
    }
  }

  /** Deleting by two classes that agree on every character of the string deletes the same characters. */
  lemma {:induction false} DeleteAgree(s: string, p: char -> bool, q: char -> bool)
    requires forall i :: 0 <= i < |s| ==> p(s[i]) == q(s[i])
    ensures Delete(s, p) == Delete(s, q)
  {
    if s != [] {
      DeleteAgree(s[1..], p, q);
      assert p(s[0]) == q(s[0]);
    }
  }

  /** One class character between two stretches without any becomes the replacement. */
  lemma {:induction false} ReplaceRunsOne(a: string, c: char, b: string, p: char -> bool, d: char)
    requires NoneOf(a, p) && p(c) && NoneOf(b, p)
    ensures ReplaceRuns(a + [c] + b, p, [d]) == a + [d] + b
  {
    if a == [] {
      assert a + [c] + b == [c] + b;
      if b != [] {
        assert !p(b[0]);
      }
    } else {
      NoneOfTail(a, p);
      ReplaceRunsOne(a[1..], c, b, p, d);
      assert (a + [c] + b)[1..] == a[1..] + [c] + b;
    }
  }

  /** Replacing runs keeps whatever held of every character and of the replacement. */
  lemma {:induction false} ReplaceRunsKeeps(s: string, p: char -> bool, rep: string, q: char -> bool)
    requires All(s, q) && All(rep, q)
    ensures All(ReplaceRuns(s, p, rep), q)
  {
    if s != [] {
      ReplaceRunsKeeps(s[1..], p, rep, q);
      assert q(s[0]);
    }
  }

  /** Deleting a class that contains the first deleted class: the first deletion makes no difference. */
  lemma {:induction false} DeleteDelete(s: string, p: char -> bool, q: char -> bool)
    requires forall c :: p(c) ==> q(c)
    ensures Delete(Delete(s, p), q) == Delete(s, q)
  {
    if s != [] {
      DeleteDelete(s[1..], p, q);
      DeleteAppend(if p(s[0]) then [] else [s[0]], Delete(s[1..], p), q);
    }
  }

  /** Replacing runs of a class by characters of a second class, then deleting the second class, is deleting it. */
  lemma {:induction false} ReplaceRunsDelete(s: string, p: char -> bool, rep: string, q: char -> bool)
    requires forall c :: p(c) ==> q(c)
    requires All(rep, q)
    ensures Delete(ReplaceRuns(s, p, rep), q) == Delete(s, q)
  {
    if s != [] {
      ReplaceRunsDelete(s[1..], p, rep, q);
      if !p(s[0]) {
        DeleteAppend([s[0]], ReplaceRuns(s[1..], p, rep), q);
      } else if !(|s| > 1 && p(s[1])) {
        DeleteAppend(rep, ReplaceRuns(s[1..], p, rep), q);
      }
    }
  }

  // ---------------------------------------------------------------------------------------------------------
  // Splitting and joining

  /** `concat(split(s))` is `s` without its separators. */
  lemma {:induction false} JoinSplitPieces(s: string, p: char -> bool)
    ensures Join(SplitBy(s, p), []) == Delete(s, p)
  {
    if s != [] {
      JoinSplitPieces(s[1..], p);
      JoinPiecesStep(s[0], s[1..], p);
      HeadTail(s);
    }
  }

  lemma JoinPiecesStep(x: char, t: string, p: char -> bool)
    requires Join(SplitBy(t, p), []) == Delete(t, p)
    ensures Join(SplitBy([x] + t, p), []) == Delete([x] + t, p)
  {
    var l := SplitBy(t, p);
    SplitCons(x, t, p);
    ConsFacts(x, t, []);
    HeadTail(l);
    JoinCons(l[0], l[1..], []);
    if p(x) {
      JoinCons([], l, []);
      assert [] + [] + Join(l, []) == [] + Join(l, []);
    } else {
      JoinCons([x] + l[0], l[1..], []);
      ConsJoined(x, l[0], [], Join(l[1..], []));
    }
  }

  /** A separator character splits the string into the pieces of either side. */
  lemma {:induction false} SplitAround(a: string, c: char, b: string, p: char -> bool)
    requires p(c)
    ensures SplitBy(a + [c] + b, p) == SplitBy(a, p) + SplitBy(b, p)
  {
    if a == [] {
      assert (a + [c] + b)[1..] == b;
    } else {
      SplitAround(a[1..], c, b, p);
      SplitAroundStep(a[0], a[1..], c, b, p);
      assert a == [a[0]] + a[1..];
    }
  }

  lemma SplitAroundStep(x: char, t: string, c: char, b: string, p: char -> bool)
    requires p(c)
    requires SplitBy(t + [c] + b, p) == SplitBy(t, p) + SplitBy(b, p)
    ensures SplitBy([x] + t + [c] + b, p) == SplitBy([x] + t, p) + SplitBy(b, p)
  {
    ConsAssoc(x, t, c, b);
    SplitCons(x, t + [c] + b, p);
    SplitCons(x, t, p);
    StepGlue(x, p(x), SplitBy(t + [c] + b, p), SplitBy(t, p), SplitBy(b, p),
      SplitBy([x] + (t + [c] + b), p), SplitBy([x] + t, p));
  }

  /** The list algebra of one `SplitBy` step taken before appending more pieces. */
  lemma StepGlue(x: char, sep: bool, m: seq<string>, l: seq<string>, r: seq<string>, g: seq<string>, h: seq<string>)
    requires m == l + r && |l| >= 1
    requires g == if sep then [[]] + m else [[x] + m[0]] + m[1..]
    requires h == if sep then [[]] + l else [[x] + l[0]] + l[1..]
    ensures g == h + r
  {
    if !sep {
      GlueFirst([x], l, r);
    }
  }

  lemma ConsAssoc(x: char, t: string, c: char, b: string)
    ensures [x] + t + [c] + b == [x] + (t + [c] + b)
  {
  }

  /** One step of `SplitBy`, for a string given by its first character. */
  lemma SplitCons(x: char, t: string, p: char -> bool)
    ensures SplitBy([x] + t, p) ==
      if p(x) then [[]] + SplitBy(t, p) else [[x] + SplitBy(t, p)[0]] + SplitBy(t, p)[1..]
  {
    assert ([x] + t)[1..] == t;
  }

  /** Gluing a prefix to the first piece commutes with appending more pieces. */
  lemma GlueFirst(x: string, l: seq<string>, m: seq<string>)
    requires |l| > 0
    ensures [x + (l + m)[0]] + (l + m)[1..] == [x + l[0]] + l[1..] + m
  {
    assert (l + m)[1..] == l[1..] + m;
  }

  /** Splitting a join undoes it, when no word holds the separator. */
  lemma {:induction false} SplitJoin(ws: seq<string>, d: char)
    requires |ws| > 0
    requires forall i :: 0 <= i < |ws| ==> d !in ws[i]
    ensures SplitBy(Join(ws, [d]), IsChar(d)) == ws
  {
    assert NoneOf(ws[0], IsChar(d));
    if |ws| > 1 {
      SplitJoin(ws[1..], d);
      SplitAround(ws[0], d, Join(ws[1..], [d]), IsChar(d));
      assert ws == [ws[0]] + ws[1..];
    }
  }

  /** Joining the pieces of a split undoes it. */
  lemma {:induction false} JoinSplit(s: string, d: char)
    ensures Join(SplitBy(s, IsChar(d)), [d]) == s
  {
    if s != [] {
      JoinSplit(s[1..], d);
      JoinSplitStep(s[0], s[1..], d);
      HeadTail(s);
    }
  }

  lemma JoinSplitStep(x: char, t: string, d: char)
    requires Join(SplitBy(t, IsChar(d)), [d]) == t
    ensures Join(SplitBy([x] + t, IsChar(d)), [d]) == [x] + t
  {
    var l := SplitBy(t, IsChar(d));
    SplitCons(x, t, IsChar(d));
    HeadTail(l);
    JoinCons(l[0], l[1..], [d]);
    if x == d {
      JoinCons([], l, [d]);
      assert [] + [d] + t == [x] + t;
    } else {
      JoinCons([x] + l[0], l[1..], [d]);
      ConsJoined(x, l[0], [d], Join(l[1..], [d]));
    }
  }

  lemma HeadTail<T>(s: seq<T>)
    requires s != []
    ensures s == [s[0]] + s[1..]
  {
  }

  lemma ConsJoined(x: char, w: string, sep: string, j: string)
    ensures [x] + w + sep + j == [x] + (w + sep + j)
  {
  }

  /** The shape of `ws.join(d)` when the words are non-empty and free of `d`: it neither starts nor ends with
      `d`, never holds `d` twice in a row, and holds exactly one `d` between consecutive words. */
  lemma {:induction false} JoinShape(ws: seq<string>, d: char)
    requires |ws| > 0
    requires forall i :: 0 <= i < |ws| ==> ws[i] != [] && d !in ws[i]
    ensures var r := Join(ws, [d]);
      && r != [] && r[0] != d && r[|r| - 1] != d
      && NoDouble(r, d)
      && multiset(r)[d] == |ws| - 1
  {
    if |ws| > 1 {
      JoinShape(ws[1..], d);
      GluedShape(ws[0], Join(ws[1..], [d]), d, |ws| - 2);
    } else {
      GluedShape(ws[0], [], d, -1);
    }
  }

  /** `w`, then `d` and `t` if `t` is non-empty: the shape `JoinShape` states, one word at a time. */
  lemma GluedShape(w: string, t: string, d: char, n: int)
    requires w != [] && d !in w
    requires t == [] ==> n == -1
    requires t != [] ==> t[0] != d && t[|t| - 1] != d && multiset(t)[d] == n
    requires NoDouble(t, d)
    ensures var r := if t == [] then w else w + [d] + t;
      && r != [] && r[0] != d && r[|r| - 1] != d
      && NoDouble(r, d)
      && multiset(r)[d] == n + 1
  {
    assert w[0] in w && w[|w| - 1] in w;
    if t != [] {
      var r := w + [d] + t;
      forall i, j | 0 <= i < |r| && 0 <= j < |r| && j == i + 1
        ensures r[i] != d || r[j] != d
      {
        if i < |w| {
          assert r[i] == w[i] && w[i] in w;
        } else if i > |w| {
          assert r[i] == t[i - |w| - 1] && r[j] == t[i - |w|];
        } else {
          assert r[j] == t[0];
        }
      }
      assert multiset(r) == multiset(w) + multiset{d} + multiset(t);
    } else {
      assert multiset(w)[d] == 0;
      forall i | 0 <= i < |w|
        ensures w[i] != d
      {
        assert w[i] in w;
      }
    }
  }

  // ---------------------------------------------------------------------------------------------------------
  // Maximal runs

  /** A string has no run exactly when it has no `p`-character. */
  lemma {:induction false} MatchRunsEmpty(s: string, p: char -> bool)
    ensures MatchRuns(s, p) == [] <==> NoneOf(s, p)
  {
    if s != [] {
      MatchRunsEmpty(s[1..], p);
    }
  }

  /** A non-`p` character ends a run: the runs of `a + [c] + b` are those of `a` followed by those of `b`. */
  lemma {:induction false} MatchRunsSplit(a: string, c: char, b: string, p: char -> bool)
    requires !p(c)
    ensures MatchRuns(a + [c] + b, p) == MatchRuns(a, p) + MatchRuns(b, p)
  {
    if a == [] {
      assert (a + [c] + b)[1..] == b;
    } else {
      MatchRunsSplit(a[1..], c, b, p);
      MatchRunsStep(a[0], a[1..], c, b, p);
      HeadTail(a);
    }
  }

  lemma MatchRunsStep(x: char, t: string, c: char, b: string, p: char -> bool)
    requires !p(c)
    requires MatchRuns(t + [c] + b, p) == MatchRuns(t, p) + MatchRuns(b, p)
    ensures MatchRuns([x] + t + [c] + b, p) == MatchRuns([x] + t, p) + MatchRuns(b, p)
  {
    var u := t + [c] + b;
    ConsAssoc(x, t, c, b);
    assert u[0] == if t != [] then t[0] else c;
    MatchCons(x, u, p);
    MatchCons(x, t, p);
    var l, r := MatchRuns(t, p), MatchRuns(b, p);
    if p(x) && p(u[0]) {
      GlueFirst([x], l, r);
    } else if p(x) {
      AppendAssoc([[x]], l, r);
    }
  }

  /** One step of `MatchRuns`, for a string given by its first character. */
  lemma MatchCons(x: char, u: string, p: char -> bool)
    ensures MatchRuns([x] + u, p) ==
      if !p(x) then MatchRuns(u, p)
      else if u != [] && p(u[0]) then [[x] + MatchRuns(u, p)[0]] + MatchRuns(u, p)[1..]
      else [[x]] + MatchRuns(u, p)
  {
    ConsFacts(x, u, []);
    if u != [] {
      assert ([x] + u)[1] == u[0];
    }
  }

  /** A non-empty string of `p`-characters is one run. */
  lemma {:induction false} MatchRunsWord(w: string, p: char -> bool)
    requires w != [] && All(w, p)
    ensures MatchRuns(w, p) == [w]
  {
    if |w| > 1 {
      MatchRunsWord(w[1..], p);
      assert w == [w[0]] + w[1..];
    } else {
      assert w[1..] == [] && w == [w[0]];
    }
  }

  /** Characters outside the class at either end do not change the runs. */
  lemma MatchRunsFrame(a: string, m: string, b: string, p: char -> bool)
    requires NoneOf(a, p) && NoneOf(b, p)
    ensures MatchRuns(a + m + b, p) == MatchRuns(m, p)
  {
    MatchRunsAfter(m, b, p);
    MatchRunsBefore(a, m + b, p);
    assert a + m + b == a + (m + b);
  }

  lemma MatchRunsAfter(m: string, b: string, p: char -> bool)
    requires NoneOf(b, p)
    ensures MatchRuns(m + b, p) == MatchRuns(m, p)
  {
    if b != [] {
      MatchRunsEmpty(b[1..], p);
      PickFirst(m, b);
      MatchRunsSplit(m, b[0], b[1..], p);
      assert MatchRuns(m, p) + [] == MatchRuns(m, p);
    } else {
      assert m + b == m;
    }
  }

  lemma MatchRunsBefore(a: string, x: string, p: char -> bool)
    requires NoneOf(a, p)
    ensures MatchRuns(a + x, p) == MatchRuns(x, p)
  {
    if a != [] {
      var n := |a| - 1;
      MatchRunsEmpty(a[..n], p);
      PickLast(a, x);
      MatchRunsSplit(a[..n], a[n], x, p);
      assert [] + MatchRuns(x, p) == MatchRuns(x, p);
    } else {
      assert a + x == x;
    }
  }

  lemma PickFirst(m: string, b: string)
    requires b != []
    ensures m + b == m + [b[0]] + b[1..]
  {
  }

  lemma PickLast(a: string, x: string)
    requires a != []
    ensures a + x == a[..|a| - 1] + [a[|a| - 1]] + x
  {
  }

  /** Mapping characters by a function that keeps membership of the class maps each run. */
  lemma {:induction false} MatchRunsMap(s: string, p: char -> bool, f: char -> char)
    requires forall c :: p(f(c)) == p(c)
    ensures MatchRuns(MapChars(s, f), p) == MapEach(MatchRuns(s, p), f)
  {
    if s != [] {
      var t := MapChars(s, f);
      assert t[1..] == MapChars(s[1..], f);
      MatchRunsMap(s[1..], p, f);
      var rest := MatchRuns(s[1..], p);
      if p(s[0]) && |s| > 1 && p(s[1]) {
        assert MapChars([s[0]] + rest[0], f) == [f(s[0])] + MapChars(rest[0], f);
        assert MapEach(rest, f)[1..] == MapEach(rest[1..], f);
        assert MapEach([[s[0]] + rest[0]] + rest[1..], f) == [MapChars([s[0]] + rest[0], f)] + MapEach(rest[1..], f);
      } else if p(s[0]) {
        assert MapChars([s[0]], f) == [f(s[0])];
        assert MapEach([[s[0]]] + rest, f) == [[f(s[0])]] + MapEach(rest, f);
      }
    }
  }

  /** Where the characters outside the runs are exactly the `q`-characters, replacing each `q`-run by `d` puts
      one `d` between consecutive runs, and one more at either end that starts or ends with a `q`-run. */
  lemma {:induction false} ReplaceRunsJoinsRuns(x: string, p: char -> bool, q: char -> bool, d: char)
    requires forall i :: 0 <= i < |x| ==> q(x[i]) == !p(x[i])
    requires !p(d)
    ensures ReplaceRuns(x, q, [d]) == Lead(x, q, d) + Join(MatchRuns(x, p), [d]) + Trail(x, p, q, d)
  {
    if x != [] {
      ReplaceRunsJoinsRuns(x[1..], p, q, d);
      if q(x[0]) {
        JoinsRunsOutside(x, p, q, d);
      } else {
        JoinsRunsInside(x, p, q, d);
      }
    }
  }

  ghost predicate JoinsRuns(x: string, p: char -> bool, q: char -> bool, d: char) {
    ReplaceRuns(x, q, [d]) == Lead(x, q, d) + Join(MatchRuns(x, p), [d]) + Trail(x, p, q, d)
  }

  /** The step of `ReplaceRunsJoinsRuns` for a string that starts outside a run. */
  lemma JoinsRunsOutside(x: string, p: char -> bool, q: char -> bool, d: char)
    requires x != [] && q(x[0]) && !p(x[0])
    requires forall i :: 0 <= i < |x| ==> q(x[i]) == !p(x[i])
    requires JoinsRuns(x[1..], p, q, d)
    ensures JoinsRuns(x, p, q, d)
  {
    var y := x[1..];
    assert MatchRuns(x, p) == MatchRuns(y, p);
    if y == [] {
      assert ReplaceRuns(x, q, [d]) == [d];
    } else {
      assert Trail(x, p, q, d) == Trail(y, p, q, d) by {
        assert x[|x| - 1] == y[|y| - 1];
      }
      assert q(y[0]) == !p(y[0]) by {
        assert x[1] == y[0];
      }
      if q(y[0]) {
        assert ReplaceRuns(x, q, [d]) == ReplaceRuns(y, q, [d]) by {
          assert x[1] == y[0];
        }
      } else {
        assert ReplaceRuns(x, q, [d]) == [d] + ReplaceRuns(y, q, [d]) by {
          assert x[1] == y[0];
        }
        PrependGlue(d, ReplaceRuns(x, q, [d]), ReplaceRuns(y, q, [d]), [], [d] + Join(MatchRuns(y, p), [d]),
          Trail(x, p, q, d), Lead(y, q, d), Join(MatchRuns(y, p), [d]), Trail(y, p, q, d));
      }
    }
  }

  /** The step of `ReplaceRunsJoinsRuns` for a string that starts inside a run. */
  lemma JoinsRunsInside(x: string, p: char -> bool, q: char -> bool, d: char)
    requires x != [] && !q(x[0]) && p(x[0]) && !p(d)
    requires forall i :: 0 <= i < |x| ==> q(x[i]) == !p(x[i])
    requires JoinsRuns(x[1..], p, q, d)
    ensures JoinsRuns(x, p, q, d)
  {
    var c, y := x[0], x[1..];
    var ry := MatchRuns(y, p);
    assert ReplaceRuns(x, q, [d]) == [c] + ReplaceRuns(y, q, [d]);
    if y == [] {
      assert MatchRuns(x, p) == [[c]];
    } else {
      assert x[1] == y[0] && x[|x| - 1] == y[|y| - 1];
      assert q(y[0]) == !p(y[0]);
      if p(y[0]) {
        JoinsRunsExtend(x, p, q, d);
      } else {
        JoinsRunsSingle(x, p, q, d);
      }
    }
  }

  /** A run that goes on past its first character. */
  lemma JoinsRunsExtend(x: string, p: char -> bool, q: char -> bool, d: char)
    requires |x| > 1 && !q(x[0]) && p(x[0]) && p(x[1]) && !q(x[1])
    requires ReplaceRuns(x, q, [d]) == [x[0]] + ReplaceRuns(x[1..], q, [d])
    requires JoinsRuns(x[1..], p, q, d)
    ensures JoinsRuns(x, p, q, d)
  {
    var c, y := x[0], x[1..];
    var ry := MatchRuns(y, p);
    assert Join(MatchRuns(x, p), [d]) == [c] + Join(ry, [d]) by {
      assert y[0] == x[1];
      assert ry == [ry[0]] + ry[1..];
      assert MatchRuns(x, p) == [[c] + ry[0]] + ry[1..];
      JoinPrepend(c, ry, [d]);
    }
    assert Lead(y, q, d) == [] && Lead(x, q, d) == [] by {
      assert y[0] == x[1];
    }
    assert Trail(x, p, q, d) == Trail(y, p, q, d) by {
      assert x[|x| - 1] == y[|y| - 1];
    }
    PrependGlue(c, ReplaceRuns(x, q, [d]), ReplaceRuns(y, q, [d]), Lead(x, q, d), Join(MatchRuns(x, p), [d]),
      Trail(x, p, q, d), Lead(y, q, d), Join(ry, [d]), Trail(y, p, q, d));
  }

  lemma PrependGlue(c: char, rx: string, ry: string, lx: string, jx: string, tx: string, ly: string, jy: string, ty: string)
    requires rx == [c] + ry && ry == ly + jy + ty
    requires ly == [] && lx == [] && jx == [c] + jy && tx == ty
    ensures rx == lx + jx + tx
  {
    assert [c] + (jy + ty) == [c] + jy + ty;
  }

  /** Putting a character in front of the first word puts it in front of the join. */
  lemma JoinPrepend(c: char, ws: seq<string>, sep: string)
    requires ws != []
    ensures Join([[c] + ws[0]] + ws[1..], sep) == [c] + Join(ws, sep)
  {
    JoinCons(ws[0], ws[1..], sep);
    JoinCons([c] + ws[0], ws[1..], sep);
    assert [ws[0]] + ws[1..] == ws;
    if ws[1..] != [] {
      var k := Join(ws[1..], sep);
      assert [c] + ws[0] + sep + k == [c] + (ws[0] + sep + k);
    }
  }

  /** A run of one character followed by a character outside the runs. */
  lemma JoinsRunsSingle(x: string, p: char -> bool, q: char -> bool, d: char)
    requires |x| > 1 && !q(x[0]) && p(x[0]) && !p(x[1]) && q(x[1]) && !p(d)
    requires q(x[|x| - 1]) == !p(x[|x| - 1])
    requires ReplaceRuns(x, q, [d]) == [x[0]] + ReplaceRuns(x[1..], q, [d])
    requires JoinsRuns(x[1..], p, q, d)
    ensures JoinsRuns(x, p, q, d)
  {
    var c, y := x[0], x[1..];
    var ry := MatchRuns(y, p);
    assert Lead(y, q, d) == [d] && Lead(x, q, d) == [] by {
      assert y[0] == x[1];
    }
    assert Join(MatchRuns(x, p), [d]) == if ry == [] then [c] else [c] + [d] + Join(ry, [d]) by {
      assert MatchRuns(x, p) == [[c]] + ry;
      JoinCons([c], ry, [d]);
    }
    if ry == [] {
      assert Trail(x, p, q, d) == [d] && Trail(y, p, q, d) == [] by {
        assert x[|x| - 1] == y[|y| - 1];
        MatchRunsEmpty(y, p);
        assert !p(y[|y| - 1]);
      }
    } else {
      assert Trail(x, p, q, d) == Trail(y, p, q, d) by {
        assert x[|x| - 1] == y[|y| - 1];
      }
    }
    SingleGlue(c, d, ReplaceRuns(x, q, [d]), ReplaceRuns(y, q, [d]), Lead(x, q, d), Join(MatchRuns(x, p), [d]),
      Trail(x, p, q, d), Lead(y, q, d), Join(ry, [d]), Trail(y, p, q, d));
  }

  lemma SingleGlue(c: char, d: char, rx: string, ry: string, lx: string, jx: string, tx: string, ly: string, jy: string, ty: string)
    requires rx == [c] + ry && ry == ly + jy + ty && ly == [d] && lx == []
    requires (jy == [] && ty == [] && jx == [c] && tx == [d]) || (jx == [c] + [d] + jy && tx == ty)
    ensures rx == lx + jx + tx
  {
    if jx == [c] + [d] + jy {
      assert [c] + ([d] + jy + ty) == [c] + [d] + jy + ty;
    }
  }

  /** What `ReplaceRunsJoinsRuns` puts before the first run: one `d` if the string starts outside a run. */
  function Lead(x: string, q: char -> bool, d: char): string {
    if x != [] && q(x[0]) then [d] else []
  }

  /** What `ReplaceRunsJoinsRuns` puts after the last run: one `d` if the string ends outside a run. */
  function Trail(x: string, p: char -> bool, q: char -> bool, d: char): string {
    if x != [] && q(x[|x| - 1]) && MatchRuns(x, p) != [] then [d] else []
  }

  // ---------------------------------------------------------------------------------------------------------
  // Trimming

  lemma {:induction false} TrimStartFrame(a: string, t: string, p: char -> bool)
    requires All(a, p)
    requires t == [] || !p(t[0])
    ensures TrimStart(a + t, p) == t
  {
    if a != [] {
      assert (a + t)[1..] == a[1..] + t;
      TrimStartFrame(a[1..], t, p);
    } else {
      assert a + t == t;
    }
  }

  lemma {:induction false} TrimEndFrame(t: string, b: string, p: char -> bool)
    requires All(b, p)
    requires t == [] || !p(t[|t| - 1])
    ensures TrimEnd(t + b, p) == t
  {
    if b != [] {
      assert (t + b)[..|t + b| - 1] == t + b[..|b| - 1];
      TrimEndFrame(t, b[..|b| - 1], p);
    } else {
      assert t + b == t;
    }
  }

  /** Trimming removes exactly the class characters at both ends. */
  lemma TrimFrame(a: string, m: string, b: string, p: char -> bool)
    requires All(a, p) && All(b, p)
    requires m == [] || (!p(m[0]) && !p(m[|m| - 1]))
    ensures Trim(a + m + b, p) == m
  {
    if m == [] {
      assert a + m + b == a + b;
      assert All(a + b, p);
      TrimStartFrame(a + b, [], p);
      assert a + b + [] == a + b;
    } else {
      assert a + m + b == a + (m + b);
      TrimStartFrame(a, m + b, p);
    }
    TrimEndFrame(m, b, p);
  }

  lemma TrimStartParts(s: string, p: char -> bool) returns (k: nat)
    ensures k <= |s| && s == s[..k] + TrimStart(s, p) && All(s[..k], p)
  {
    var t := TrimStart(s, p);
    k := |s| - |t|;
    Halves(s, k);
  }

  lemma Halves(s: string, k: nat)
    requires k <= |s|
    ensures s == s[..k] + s[k..]
  {
  }

  lemma TrimEndParts(t: string, p: char -> bool)
    ensures t == TrimEnd(t, p) + t[|TrimEnd(t, p)|..] && All(t[|TrimEnd(t, p)|..], p)
  {
    var r := TrimEnd(t, p);
    Halves(t, |r|);
  }

  lemma Glue(s: string, a: string, t: string, r: string, b: string)
    requires s == a + t && t == r + b
    ensures s == a + r + b
  {
    assert a + (r + b) == a + r + b;
  }

  /** The trimmed string sits between a prefix and a suffix of class characters. */
  lemma TrimParts(s: string, p: char -> bool) returns (a: string, b: string)
    ensures s == a + Trim(s, p) + b
    ensures All(a, p) && All(b, p)
  {
    var k := TrimStartParts(s, p);
    var t := TrimStart(s, p);
    TrimEndParts(t, p);
    var r := TrimEnd(t, p);
    a, b := s[..k], t[|r|..];
    Glue(s, a, t, r, b);
  }

  /** Trimming leaves nothing exactly when every character is one it trims. */
  lemma TrimEmpty(s: string, p: char -> bool)
    ensures Trim(s, p) == [] <==> All(s, p)
  {
    var a, b := TrimParts(s, p);
  }

  /** Trimming the separator off a join of words free of it, with separators around it, gives the join back. */
  lemma TrimJoin(a: string, ws: seq<string>, b: string, d: char)
    requires All(a, IsChar(d)) && All(b, IsChar(d))
    requires forall i :: 0 <= i < |ws| ==> ws[i] != [] && d !in ws[i]
    ensures Trim(a + Join(ws, [d]) + b, IsChar(d)) == Join(ws, [d])
  {
    if ws != [] {
      JoinShape(ws, d);
    }
    TrimFrame(a, Join(ws, [d]), b, IsChar(d));
  }

  /** Trimming characters outside the class makes no difference to its runs. */
  lemma TrimMatchRuns(s: string, p: char -> bool, w: char -> bool)
    requires forall c :: p(c) ==> !w(c)
    ensures MatchRuns(Trim(s, p), w) == MatchRuns(s, w)
  {
    var a, b := TrimParts(s, p);
    MatchRunsFrame(a, Trim(s, p), b, w);
  }

  // ---------------------------------------------------------------------------------------------------------
  // Deletion and replacement

  /** A deletion leaves nothing exactly when every character belongs to the class. */
  lemma {:induction false} DeleteEmpty(s: string, p: char -> bool)
    ensures Delete(s, p) == [] <==> All(s, p)
  {
    if s != [] {
      DeleteEmpty(s[1..], p);
      assert All(s, p) <==> p(s[0]) && All(s[1..], p);
    }
  }

  /** Replacing runs by a string free of a class `r` that the run class contains leaves no `r`-character. */
  lemma {:induction false} ReplaceRunsNoneOf(s: string, p: char -> bool, rep: string, r: char -> bool)
    requires forall c :: r(c) ==> p(c)
    requires NoneOf(rep, r)
    ensures NoneOf(ReplaceRuns(s, p, rep), r)
  {
    if s != [] {
      ReplaceRunsNoneOf(s[1..], p, rep, r);
      var t := ReplaceRuns(s[1..], p, rep);
      if !p(s[0]) {
        assert ReplaceRuns(s, p, rep) == [s[0]] + t;
      } else if !(|s| > 1 && p(s[1])) {
        assert ReplaceRuns(s, p, rep) == rep + t;
      }
    }
  }

  lemma NoneOfTail(s: string, p: char -> bool)
    requires s != [] && NoneOf(s, p)
    ensures NoneOf(s[1..], p)
  {
    assert forall i :: 0 <= i < |s[1..]| ==> s[1..][i] == s[i + 1];
  }

  lemma NoneOfFront(s: string, p: char -> bool)
    requires s != [] && NoneOf(s, p)
    ensures NoneOf(s[..|s| - 1], p)
  {
    assert forall i :: 0 <= i < |s| - 1 ==> s[..|s| - 1][i] == s[i];
  }

  /** No two characters of the class stand side by side. */
  predicate NoAdjacent(s: string, p: char -> bool) {
    forall i, j :: 0 <= i < |s| && 0 <= j < |s| && j == i + 1 ==> !p(s[i]) || !p(s[j])
  }

  /** Replacing runs by one character of the class leaves no two class characters side by side. */
  lemma {:induction false} ReplaceRunsSingle(s: string, p: char -> bool, d: char)
    requires p(d)
    ensures NoAdjacent(ReplaceRuns(s, p, [d]), p)
  {
    if s != [] {
      ReplaceRunsSingle(s[1..], p, d);
      var t := ReplaceRuns(s[1..], p, [d]);
      if !p(s[0]) || !(|s| > 1 && p(s[1])) {
        var r := ReplaceRuns(s, p, [d]);
        var h := if p(s[0]) then d else s[0];
        assert r == [h] + t;
        if |s| > 1 && !p(s[1]) {
          assert s[1..][0] == s[1];
        }
        forall i, j | 0 <= i < |r| && 0 <= j < |r| && j == i + 1
          ensures !p(r[i]) || !p(r[j])
        {
          if i > 0 {
            assert r[i] == t[i - 1] && r[j] == t[i];
          } else {
            assert r[0] == h && r[1] == t[0];
          }
        }
      } else {
        assert ReplaceRuns(s, p, [d]) == t;
      }
    }
  }

  // ---------------------------------------------------------------------------------------------------------
  // Cleaning split pieces: `ws.map(w => w.replace(/[class r]/g, '') mapped by f).filter(Boolean)`

  lemma CleanHeadTail(ws: seq<string>, r: char -> bool, f: char -> char)
    requires ws != []
    ensures NonEmpty(CleanEach(ws, r, f)) == NonEmpty(CleanEach([ws[0]], r, f)) + NonEmpty(CleanEach(ws[1..], r, f))
  {
    assert ws == [ws[0]] + ws[1..];
    CleanEachAppend([ws[0]], ws[1..], r, f);
    NonEmptyAppend(CleanEach([ws[0]], r, f), CleanEach(ws[1..], r, f));
  }

  /** Collapsing each run of separators to one separator `d` before splitting on `d` changes the pieces only by
      empty ones, which cleaning drops. */
  lemma {:induction false} SplitCollapsed(x: string, p: char -> bool, d: char, r: char -> bool, f: char -> char)
    requires p(d)
    ensures var g, h := SplitBy(ReplaceRuns(x, p, [d]), IsChar(d)), SplitBy(x, p);
      g[0] == h[0] && NonEmpty(CleanEach(g[1..], r, f)) == NonEmpty(CleanEach(h[1..], r, f))
  {
    if x != [] {
      var c, y := x[0], x[1..];
      SplitCollapsed(y, p, d, r, f);
      var gy, hy := SplitBy(ReplaceRuns(y, p, [d]), IsChar(d)), SplitBy(y, p);
      if !p(c) {
        SplitCollapsedWord(x, p, d, r, f);
      } else if |x| > 1 && p(x[1]) {
        SplitCollapsedRun(x, p, d, r, f);
      } else {
        SplitCollapsedLast(x, p, d, r, f);
      }
    }
  }

  lemma SplitCollapsedWord(x: string, p: char -> bool, d: char, r: char -> bool, f: char -> char)
    requires p(d) && x != [] && !p(x[0])
    requires var g, h := SplitBy(ReplaceRuns(x[1..], p, [d]), IsChar(d)), SplitBy(x[1..], p);
      g[0] == h[0] && NonEmpty(CleanEach(g[1..], r, f)) == NonEmpty(CleanEach(h[1..], r, f))
    ensures var g, h := SplitBy(ReplaceRuns(x, p, [d]), IsChar(d)), SplitBy(x, p);
      g[0] == h[0] && NonEmpty(CleanEach(g[1..], r, f)) == NonEmpty(CleanEach(h[1..], r, f))
  {
    var c, y := x[0], x[1..];
    var ry := ReplaceRuns(y, p, [d]);
    var gy, hy := SplitBy(ry, IsChar(d)), SplitBy(y, p);
    assert ReplaceRuns(x, p, [d]) == [c] + ry;
    assert ([c] + ry)[1..] == ry;
    var g := SplitBy([c] + ry, IsChar(d));
    assert g == [[c] + gy[0]] + gy[1..];
    assert g[1..] == gy[1..];
    var h := SplitBy(x, p);
    assert h == [[c] + hy[0]] + hy[1..];
    assert h[1..] == hy[1..];
  }

  lemma SplitCollapsedRun(x: string, p: char -> bool, d: char, r: char -> bool, f: char -> char)
    requires p(d) && |x| > 1 && p(x[0]) && p(x[1])
    requires var g, h := SplitBy(ReplaceRuns(x[1..], p, [d]), IsChar(d)), SplitBy(x[1..], p);
      g[0] == h[0] && NonEmpty(CleanEach(g[1..], r, f)) == NonEmpty(CleanEach(h[1..], r, f))
    ensures var g, h := SplitBy(ReplaceRuns(x, p, [d]), IsChar(d)), SplitBy(x, p);
      g[0] == h[0] && NonEmpty(CleanEach(g[1..], r, f)) == NonEmpty(CleanEach(h[1..], r, f))
  {
    var y := x[1..];
    assert y[0] == x[1];
    var gy, hy := SplitBy(ReplaceRuns(y, p, [d]), IsChar(d)), SplitBy(y, p);
    assert ReplaceRuns(x, p, [d]) == ReplaceRuns(y, p, [d]);
    var h := SplitBy(x, p);
    assert h == [[]] + hy && h[1..] == hy;
    assert hy[0] == [];
    CleanHeadTail(hy, r, f);
    assert NonEmpty(CleanEach([hy[0]], r, f)) == [];
  }

  lemma SplitCollapsedLast(x: string, p: char -> bool, d: char, r: char -> bool, f: char -> char)
    requires p(d) && x != [] && p(x[0]) && !(|x| > 1 && p(x[1]))
    requires var g, h := SplitBy(ReplaceRuns(x[1..], p, [d]), IsChar(d)), SplitBy(x[1..], p);
      g[0] == h[0] && NonEmpty(CleanEach(g[1..], r, f)) == NonEmpty(CleanEach(h[1..], r, f))
    ensures var g, h := SplitBy(ReplaceRuns(x, p, [d]), IsChar(d)), SplitBy(x, p);
      g[0] == h[0] && NonEmpty(CleanEach(g[1..], r, f)) == NonEmpty(CleanEach(h[1..], r, f))
  {
    var y := x[1..];
    var ry := ReplaceRuns(y, p, [d]);
    var gy, hy := SplitBy(ry, IsChar(d)), SplitBy(y, p);
    assert ReplaceRuns(x, p, [d]) == [d] + ry;
    assert ([d] + ry)[1..] == ry;
    var g := SplitBy([d] + ry, IsChar(d));
    assert g == [[]] + gy && g[1..] == gy;
    var h := SplitBy(x, p);
    assert h == [[]] + hy && h[1..] == hy;
    CleanHeadTail(gy, r, f);
    CleanHeadTail(hy, r, f);
  }

  /** The cleaned pieces of a collapsed split are the cleaned pieces of the plain split. */
  lemma SplitCollapsedClean(x: string, p: char -> bool, d: char, r: char -> bool, f: char -> char)
    requires p(d)
    ensures NonEmpty(CleanEach(SplitBy(ReplaceRuns(x, p, [d]), IsChar(d)), r, f)) == NonEmpty(CleanEach(SplitBy(x, p), r, f))
  {
    SplitCollapsed(x, p, d, r, f);
    CleanHeadTail(SplitBy(ReplaceRuns(x, p, [d]), IsChar(d)), r, f);
    CleanHeadTail(SplitBy(x, p), r, f);
  }

  /** A character that cleaning deletes and that does not separate pieces makes no difference to the cleaned pieces. */
  lemma {:induction false} SplitCleanDeleted(a: string, c: char, b: string, p: char -> bool, r: char -> bool, f: char -> char)
    requires r(c) && !p(c)
    ensures CleanEach(SplitBy(a + [c] + b, p), r, f) == CleanEach(SplitBy(a + b, p), r, f)
  {
    var x, z := a + [c] + b, a + b;
    if a == [] {
      assert x == [c] + b && x[1..] == b && z == b;
      var hb := SplitBy(b, p);
      assert SplitBy(x, p) == [[c] + hb[0]] + hb[1..];
      DeleteAppend([c], hb[0], r);
      assert Delete([c] + hb[0], r) == Delete(hb[0], r);
      assert hb == [hb[0]] + hb[1..];
    } else {
      assert x[0] == a[0] && x[1..] == a[1..] + [c] + b;
      assert z[0] == a[0] && z[1..] == a[1..] + b;
      SplitCleanDeleted(a[1..], c, b, p, r, f);
      var hx, hz := SplitBy(x[1..], p), SplitBy(z[1..], p);
      if !p(a[0]) {
        assert CleanEach(hx, r, f)[0] == CleanEach(hz, r, f)[0];
        assert MapChars(Delete(hx[0], r), f) == MapChars(Delete(hz[0], r), f);
        DeleteAppend([a[0]], hx[0], r);
        DeleteAppend([a[0]], hz[0], r);
        MapCharsAppend(Delete([a[0]], r), Delete(hx[0], r), f);
        MapCharsAppend(Delete([a[0]], r), Delete(hz[0], r), f);
        assert CleanEach(hx, r, f)[1..] == CleanEach(hx[1..], r, f);
        assert CleanEach(hz, r, f)[1..] == CleanEach(hz[1..], r, f);
      }
    }
  }

  /** The cleaned words, concatenated, are the cleaned string. */
  lemma {:induction false} JoinCleanEach(ws: seq<string>, r: char -> bool, f: char -> char)
    ensures Join(CleanEach(ws, r, f), []) == MapChars(Delete(Join(ws, []), r), f)
  {
    if ws != [] {
      JoinCleanEach(ws[1..], r, f);
      JoinCleanStep(ws[0], ws[1..], r, f);
      assert ws == [ws[0]] + ws[1..];
    }
  }

  lemma JoinCleanStep(w: string, ws: seq<string>, r: char -> bool, f: char -> char)
    requires Join(CleanEach(ws, r, f), []) == MapChars(Delete(Join(ws, []), r), f)
    ensures Join(CleanEach([w] + ws, r, f), []) == MapChars(Delete(Join([w] + ws, []), r), f)
  {
    var cw := MapChars(Delete(w, r), f);
    assert ([w] + ws)[1..] == ws;
    assert CleanEach([w] + ws, r, f) == [cw] + CleanEach(ws, r, f);
    JoinCons(cw, CleanEach(ws, r, f), []);
    JoinCons(w, ws, []);
    if ws != [] {
      DeleteAppend(w + [], Join(ws, []), r);
      MapCharsAppend(Delete(w, r), Delete(Join(ws, []), r), f);
      assert w + [] == w;
      assert cw + [] == cw;
    }
  }

  /** Dropping empty words does not change their concatenation. */
  lemma {:induction false} JoinNonEmpty(ws: seq<string>)
    ensures Join(NonEmpty(ws), []) == Join(ws, [])
  {
    if ws != [] {
      JoinNonEmpty(ws[1..]);
      assert ws == [ws[0]] + ws[1..];
      NonEmptyAppend([ws[0]], ws[1..]);
      JoinCons(ws[0], ws[1..], []);
      assert NonEmpty([ws[0]]) == if ws[0] == [] then [] else [ws[0]];
      if ws[0] != [] {
        JoinCons(ws[0], NonEmpty(ws[1..]), []);
        assert ws[0] + [] == ws[0];
      } else if |ws| > 1 {
        assert NonEmpty(ws) == NonEmpty(ws[1..]);
        assert ws[0] + [] + Join(ws[1..], []) == Join(ws[1..], []);
      }
    }
  }
}
