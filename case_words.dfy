/** The two ways the conversions find words in a string, and the camelCase assembly they share.

    Separator normalisation (`toCamelCase` and `toDotCase` of lib/string.js and refined_prompt.js): runs of `-`, `_`
    and white space become one space, the string is split at the spaces, every other character that is not a letter
    or number is deleted from each piece, the pieces are lower-cased and empty pieces are dropped.

    Maximal-run extraction (`toCamelCase` of basic_prompt.js and few_shot_prompt.js, and in effect `toKebabCase`):
    every maximal run of letters and numbers is a word, lower-cased. */
module CaseWords {
  import opened Unicode
  import opened JsString

  /** `s.replace(/[-_\s]+/g, ' ').split(' ').map(w => w.replace(/[^\p{L}\p{N}]/gu, '').toLowerCase()).filter(Boolean)` */
  function SeparatorWords(u: Table, s: string): (r: seq<string>)
    ensures forall i :: 0 <= i < |r| ==> r[i] != []
  {
    var separated := ReplaceRuns(s, SeparatorChar(u), " ");
    NonEmpty(CleanEach(SplitBy(separated, IsChar(' ')), NonWordChar(u), LowerChar(u)))
  }

  /** `s.match(/[\p{L}\p{N}]+/gu)` (no match is no word) `.map(w => w.toLowerCase())` */
  function RunWords(u: Table, s: string): (r: seq<string>)
    ensures forall i :: 0 <= i < |r| ==> r[i] != []
  {
    MapEach(MatchRuns(s, WordChar(u)), LowerChar(u))
  }

  /** `first + rest.map(w => w.charAt(0).toUpperCase() + w.slice(1)).join('')`: it starts with the first word. */
  function CamelJoin(u: Table, ws: seq<string>): (r: string)
    requires ws != []
    ensures |ws[0]| <= |r| && r[..|ws[0]|] == ws[0]
  {
    ws[0] + Join(CapitalizeEach(ws[1..], UpperChar(u)), [])
  }

  /** A word as both ways of finding words produce it: non-empty, letters and numbers only, lower-case. */
  predicate IsLowerWord(u: Table, w: string) {
    w != [] && All(w, WordChar(u)) && MapChars(w, LowerChar(u)) == w
  }

  predicate LowerWords(u: Table, ws: seq<string>) {
    forall i :: 0 <= i < |ws| ==> IsLowerWord(u, ws[i])
  }

  // ---------------------------------------------------------------------------------------------------------
  // Separator normalisation

  /** Collapsing the separator runs first makes no difference: the words are the cleaned, non-empty pieces
      between single separator characters. */
  lemma SeparatorWordsPieces(u: Table, s: string)
    ensures SeparatorWords(u, s) == NonEmpty(CleanEach(SplitBy(s, SeparatorChar(u)), NonWordChar(u), LowerChar(u)))
  {
    assert SeparatorChar(u)(' ');
    SplitCollapsedClean(s, SeparatorChar(u), ' ', NonWordChar(u), LowerChar(u));
  }

  /** A cleaned word is made of letters and numbers and is lower-case. */
  lemma CleanWord(u: Table, w: string)
    requires Wf(u)
    ensures var c := MapChars(Delete(w, NonWordChar(u)), LowerChar(u)); All(c, WordChar(u)) && MapChars(c, LowerChar(u)) == c
  {
  }

  /** Every word is non-empty, made of letters and numbers only, and lower-case. */
  lemma SeparatorWordsShape(u: Table, s: string)
    requires Wf(u)
    ensures LowerWords(u, SeparatorWords(u, s))
  {
    var pieces := SplitBy(ReplaceRuns(s, SeparatorChar(u), " "), IsChar(' '));
    var cleaned := CleanEach(pieces, NonWordChar(u), LowerChar(u));
    var ws := SeparatorWords(u, s);
    forall i | 0 <= i < |ws|
      ensures IsLowerWord(u, ws[i])
    {
      var j :| 0 <= j < |cleaned| && cleaned[j] == ws[i];
      CleanWord(u, pieces[j]);
    }
  }

  /** The words, concatenated, are the letters and numbers of the string, lower-cased, in order. */
  lemma SeparatorWordsContent(u: Table, s: string)
    requires Wf(u)
    ensures Join(SeparatorWords(u, s), []) == MapChars(Delete(s, NonWordChar(u)), LowerChar(u))
  {
    var pieces := SplitBy(s, SeparatorChar(u));
    SeparatorWordsPieces(u, s);
    JoinNonEmpty(CleanEach(pieces, NonWordChar(u), LowerChar(u)));
    JoinCleanEach(pieces, NonWordChar(u), LowerChar(u));
    JoinSplitPieces(s, SeparatorChar(u));
    forall c | SeparatorChar(u)(c)
      ensures NonWordChar(u)(c)
    {
      if IsWordChar(u, c) {
        WordCharIsNotSeparator(u, c);
      }
    }
    DeleteDelete(s, SeparatorChar(u), NonWordChar(u));
  }

  /** A separator character ends a word: the words of `a + [c] + b` are those of `a` followed by those of `b`. */
  lemma SeparatorWordsSplit(u: Table, a: string, c: char, b: string)
    requires IsSeparator(u, c)
    ensures SeparatorWords(u, a + [c] + b) == SeparatorWords(u, a) + SeparatorWords(u, b)
  {
    var sep, del, low := SeparatorChar(u), NonWordChar(u), LowerChar(u);
    SeparatorWordsPieces(u, a + [c] + b);
    SeparatorWordsPieces(u, a);
    SeparatorWordsPieces(u, b);
    SplitAround(a, c, b, sep);
    CleanEachAppend(SplitBy(a, sep), SplitBy(b, sep), del, low);
    NonEmptyAppend(CleanEach(SplitBy(a, sep), del, low), CleanEach(SplitBy(b, sep), del, low));
  }

  /** Any other character that is not a letter or number is deleted without ending a word, so `2.0` gives `20`. */
  lemma SeparatorWordsDeleted(u: Table, a: string, c: char, b: string)
    requires !IsWordChar(u, c) && !IsSeparator(u, c)
    ensures SeparatorWords(u, a + [c] + b) == SeparatorWords(u, a + b)
  {
    SeparatorWordsPieces(u, a + [c] + b);
    SeparatorWordsPieces(u, a + b);
    SplitCleanDeleted(a, c, b, SeparatorChar(u), NonWordChar(u), LowerChar(u));
  }

  /** A non-empty string of letters and numbers is one word, lower-cased. */
  lemma SeparatorWordsWord(u: Table, w: string)
    requires Wf(u)
    requires w != [] && All(w, WordChar(u))
    ensures SeparatorWords(u, w) == [MapChars(w, LowerChar(u))]
  {
    var lw := MapChars(w, LowerChar(u));
    assert SplitBy(w, SeparatorChar(u)) == [w] by {
      forall i | 0 <= i < |w|
        ensures !SeparatorChar(u)(w[i])
      {
        WordCharIsNotSeparator(u, w[i]);
      }
    }
    assert CleanEach([w], NonWordChar(u), LowerChar(u)) == [lw];
    assert NonEmpty([lw]) == [lw] by {
      assert lw != [];
    }
    SeparatorWordsPieces(u, w);
  }

  /** There are no words exactly when the string has no letter or number. */
  lemma SeparatorWordsEmpty(u: Table, s: string)
    requires Wf(u)
    ensures SeparatorWords(u, s) == [] <==> NoneOf(s, WordChar(u))
  {
    SeparatorWordsContent(u, s);
    SeparatorWordsShape(u, s);
    JoinEmpty(SeparatorWords(u, s));
    DeleteEmpty(s, NonWordChar(u));
    assert All(s, NonWordChar(u)) <==> NoneOf(s, WordChar(u));
  }

  /** Words that are all non-empty join to nothing only when there are none. */
  lemma JoinEmpty(ws: seq<string>)
    requires forall i :: 0 <= i < |ws| ==> ws[i] != []
    ensures Join(ws, []) == [] <==> ws == []
  {
    if ws != [] {
      JoinCons(ws[0], ws[1..], []);
      assert ws == [ws[0]] + ws[1..];
    }
  }

  /** White space at either end makes no difference to the words. */
  lemma SeparatorWordsTrim(u: Table, s: string)
    requires Wf(u)
    ensures SeparatorWords(u, Trim(s, SpaceChar(u))) == SeparatorWords(u, s)
  {
    var a, b := TrimParts(s, SpaceChar(u));
    SeparatorWordsBlankAround(u, a, Trim(s, SpaceChar(u)), b);
  }

  lemma SeparatorWordsBlankAround(u: Table, a: string, m: string, b: string)
    requires Wf(u)
    requires All(a, SpaceChar(u)) && All(b, SpaceChar(u))
    ensures SeparatorWords(u, a + m + b) == SeparatorWords(u, m)
  {
    SeparatorWordsBlankAfter(u, a + m, b);
    SeparatorWordsBlankBefore(u, a, m);
  }

  lemma SeparatorWordsBlank(u: Table, a: string)
    requires Wf(u)
    requires All(a, SpaceChar(u))
    ensures SeparatorWords(u, a) == []
  {
    forall i | 0 <= i < |a|
      ensures !WordChar(u)(a[i])
    {
    }
    SeparatorWordsEmpty(u, a);
  }

  lemma SeparatorWordsBlankBefore(u: Table, a: string, m: string)
    requires Wf(u)
    requires All(a, SpaceChar(u))
    ensures SeparatorWords(u, a + m) == SeparatorWords(u, m)
  {
    if a != [] {
      var n := |a| - 1;
      assert a + m == a[..n] + [a[n]] + m;
      SeparatorWordsSplit(u, a[..n], a[n], m);
      SeparatorWordsBlank(u, a[..n]);
    } else {
      assert a + m == m;
    }
  }

  lemma SeparatorWordsBlankAfter(u: Table, m: string, b: string)
    requires Wf(u)
    requires All(b, SpaceChar(u))
    ensures SeparatorWords(u, m + b) == SeparatorWords(u, m)
  {
    if b != [] {
      assert m + b == m + [b[0]] + b[1..];
      SeparatorWordsSplit(u, m, b[0], b[1..]);
      SeparatorWordsBlank(u, b[1..]);
    } else {
      assert m + b == m;
    }
  }

  // ---------------------------------------------------------------------------------------------------------
  // Maximal-run extraction

  /** Every word is non-empty, made of letters and numbers only, and lower-case. */
  lemma RunWordsShape(u: Table, s: string)
    requires Wf(u)
    ensures LowerWords(u, RunWords(u, s))
  {
    var runs := MatchRuns(s, WordChar(u));
    forall i | 0 <= i < |runs|
      ensures IsLowerWord(u, MapChars(runs[i], LowerChar(u)))
    {
      assert All(runs[i], WordChar(u));
    }
  }

  /** Any character that is not a letter or number ends a word, `.` included. */
  lemma RunWordsSplit(u: Table, a: string, c: char, b: string)
    requires !IsWordChar(u, c)
    ensures RunWords(u, a + [c] + b) == RunWords(u, a) + RunWords(u, b)
  {
    MatchRunsSplit(a, c, b, WordChar(u));
    MapEachAppend(MatchRuns(a, WordChar(u)), MatchRuns(b, WordChar(u)), LowerChar(u));
  }

  /** A non-empty string of letters and numbers is one word, lower-cased. */
  lemma RunWordsWord(u: Table, w: string)
    requires w != [] && All(w, WordChar(u))
    ensures RunWords(u, w) == [MapChars(w, LowerChar(u))]
  {
    MatchRunsWord(w, WordChar(u));
  }

  /** There are no words exactly when the string has no letter or number. */
  lemma RunWordsEmpty(u: Table, s: string)
    ensures RunWords(u, s) == [] <==> NoneOf(s, WordChar(u))
  {
    MatchRunsEmpty(s, WordChar(u));
  }

  // ---------------------------------------------------------------------------------------------------------
  // The two ways compared

  /** On a string made only of letters, numbers and separators both ways find the same words. */
  lemma {:induction false} WordsAgree(u: Table, s: string)
    requires Wf(u)
    requires forall i :: 0 <= i < |s| ==> IsWordChar(u, s[i]) || IsSeparator(u, s[i])
    ensures SeparatorWords(u, s) == RunWords(u, s)
    decreases |s|
  {
    if i :| 0 <= i < |s| && IsSeparator(u, s[i]) {
      WordsAgree(u, s[..i]);
      WordsAgree(u, s[i + 1..]);
      PickOut(s, i);
      WordsAgreeAt(u, s[..i], s[i], s[i + 1..]);
    } else if s != [] {
      SeparatorWordsWord(u, s);
      RunWordsWord(u, s);
    }
  }

  lemma PickOut(s: string, i: int)
    requires 0 <= i < |s|
    ensures s == s[..i] + [s[i]] + s[i + 1..]
  {
  }

  lemma WordsAgreeAt(u: Table, a: string, c: char, b: string)
    requires Wf(u) && IsSeparator(u, c)
    requires SeparatorWords(u, a) == RunWords(u, a) && SeparatorWords(u, b) == RunWords(u, b)
    ensures SeparatorWords(u, a + [c] + b) == RunWords(u, a + [c] + b)
  {
    if IsWordChar(u, c) {
      WordCharIsNotSeparator(u, c);
    }
    SeparatorWordsSplit(u, a, c, b);
    RunWordsSplit(u, a, c, b);
  }

  /** Any two letters or numbers with something else between them have a space, `-` or `_` between them:
      punctuation only ever stands at the edge of a word. */
  predicate SeparatorBetweenWords(u: Table, s: string) {
    forall i, j | 0 <= i < j < |s| :: SeparatorBetween(u, s, i, j)
  }

  /** If the characters at `i` and `j` are letters or numbers with something else between them, a space, `-` or `_`
      is among what lies between. */
  predicate SeparatorBetween(u: Table, s: string, i: int, j: int)
    requires 0 <= i < j < |s|
  {
    IsWordChar(u, s[i]) && IsWordChar(u, s[j]) && !All(s[i + 1..j], WordChar(u)) ==>
      !NoneOf(s[i + 1..j], SeparatorChar(u))
  }

  lemma {:induction false} SeparatorBetweenPrefix(u: Table, s: string, k: int)
    requires 0 <= k <= |s| && SeparatorBetweenWords(u, s)
    ensures SeparatorBetweenWords(u, s[..k])
  {
    var p := s[..k];
    forall i, j | 0 <= i < j < |p|
      ensures SeparatorBetween(u, p, i, j)
    {
      assert SeparatorBetween(u, s, i, j);
      assert p[i + 1..j] == s[i + 1..j];
    }
  }

  lemma {:induction false} SeparatorBetweenSuffix(u: Table, s: string, k: int)
    requires 0 <= k <= |s| && SeparatorBetweenWords(u, s)
    ensures SeparatorBetweenWords(u, s[k..])
  {
    var p := s[k..];
    forall i, j | 0 <= i < j < |p|
      ensures SeparatorBetween(u, p, i, j)
    {
      assert SeparatorBetween(u, s, k + i, k + j);
      assert p[i] == s[k + i] && p[j] == s[k + j];
      assert p[i + 1..j] == s[k + i + 1..k + j];
    }
  }

  /** The two ways of finding words agree wherever punctuation stands only at the edge of a word, as in
      `a!-b` or `  This-is_an Example!  `: they part only where punctuation joins two letters or numbers. */
  lemma {:induction false} WordsAgreeSeparated(u: Table, s: string)
    requires Wf(u) && SeparatorBetweenWords(u, s)
    ensures SeparatorWords(u, s) == RunWords(u, s)
    decreases |s|
  {
    if m :| 0 <= m < |s| && IsSeparator(u, s[m]) {
      SeparatorBetweenPrefix(u, s, m);
      SeparatorBetweenSuffix(u, s, m + 1);
      WordsAgreeSeparated(u, s[..m]);
      WordsAgreeSeparated(u, s[m + 1..]);
      PickOut(s, m);
      WordsAgreeAt(u, s[..m], s[m], s[m + 1..]);
    } else {
      WordsAgreeUnseparated(u, s);
    }
  }

  /** Without separators, all the letters and numbers form one block with punctuation around it. */
  lemma {:induction false} WordsAgreeUnseparated(u: Table, s: string)
    requires Wf(u) && SeparatorBetweenWords(u, s) && NoneOf(s, SeparatorChar(u))
    ensures SeparatorWords(u, s) == RunWords(u, s)
    decreases |s|
  {
    var n := |s|;
    if s == [] {
      SeparatorWordsEmpty(u, s);
      RunWordsEmpty(u, s);
    } else if !IsWordChar(u, s[0]) {
      SeparatorBetweenSuffix(u, s, 1);
      NoneOfSlice(s, SeparatorChar(u), 1, n);
      WordsAgreeUnseparated(u, s[1..]);
      WordsAgreeAfterGap(u, s);
    } else if !IsWordChar(u, s[n - 1]) {
      SeparatorBetweenPrefix(u, s, n - 1);
      NoneOfSlice(s, SeparatorChar(u), 0, n - 1);
      WordsAgreeUnseparated(u, s[..n - 1]);
      WordsAgreeBeforeGap(u, s);
    } else {
      OneBlock(u, s);
      SeparatorWordsWord(u, s);
      RunWordsWord(u, s);
    }
  }

  lemma {:induction false} WordsAgreeAfterGap(u: Table, s: string)
    requires s != [] && !IsWordChar(u, s[0]) && SeparatorWords(u, s[1..]) == RunWords(u, s[1..])
    ensures SeparatorWords(u, s) == RunWords(u, s)
  {
    SplitFirst(s);
    SeparatorWordsGapStart(u, [s[0]], s[1..]);
    RunWordsGapStart(u, [s[0]], s[1..]);
  }

  lemma {:induction false} WordsAgreeBeforeGap(u: Table, s: string)
    requires s != [] && !IsWordChar(u, s[|s| - 1]) && SeparatorWords(u, s[..|s| - 1]) == RunWords(u, s[..|s| - 1])
    ensures SeparatorWords(u, s) == RunWords(u, s)
  {
    var n := |s|;
    SplitLast(s);
    SeparatorWordsGapEnd(u, s[..n - 1], [s[n - 1]]);
    RunWordsGapEnd(u, s[..n - 1], [s[n - 1]]);
  }

  lemma SplitFirst(s: string)
    requires s != []
    ensures s == [s[0]] + s[1..]
  {
  }

  lemma SplitLast(s: string)
    requires s != []
    ensures s == s[..|s| - 1] + [s[|s| - 1]]
  {
  }

  lemma {:induction false} NoneOfSlice(s: string, p: char -> bool, lo: int, hi: int)
    requires 0 <= lo <= hi <= |s| && NoneOf(s, p)
    ensures NoneOf(s[lo..hi], p)
  {
    forall k | 0 <= k < hi - lo
      ensures !p(s[lo..hi][k])
    {
      assert s[lo..hi][k] == s[lo + k];
    }
  }

  /** A string without separators that starts and ends with a letter or number has nothing else in it. */
  lemma {:induction false} OneBlock(u: Table, s: string)
    requires s != [] && IsWordChar(u, s[0]) && IsWordChar(u, s[|s| - 1])
    requires SeparatorBetweenWords(u, s) && NoneOf(s, SeparatorChar(u))
    ensures All(s, WordChar(u))
  {
    var n := |s|;
    if n > 1 {
      assert SeparatorBetween(u, s, 0, n - 1);
      var mid := s[1..n - 1];
      assert NoneOf(mid, SeparatorChar(u)) by {
        forall k | 0 <= k < |mid|
          ensures !IsSeparator(u, mid[k])
        {
          assert mid[k] == s[k + 1];
        }
      }
      assert All(mid, WordChar(u));
      forall i | 0 <= i < n
        ensures IsWordChar(u, s[i])
      {
        if 0 < i < n - 1 {
          assert s[i] == mid[i - 1];
        }
      }
    }
  }

  /** Punctuation inside a word tells the two apart: `a.b` is one word `ab` by separator normalisation ... */
  lemma SeparatorWordsDot(u: Table)
    requires Wf(u)
    ensures SeparatorWords(u, "a.b") == ["ab"]
  {
    DotPieces();
    SeparatorWordsDeleted(u, "a", '.', "b");
    AbLowers(u);
    LoweredWord(u, "ab", "ab");
  }

  lemma AbLowers(u: Table)
    ensures "ab" != [] && LowersTo(u, "ab", "ab")
  {
  }

  lemma DotPieces()
    ensures "a.b" == "a" + ['.'] + "b" && "a" + "b" == "ab"
  {
  }

  /** ... and the two words `a` and `b` by maximal runs. */
  lemma RunWordsDot(u: Table)
    ensures RunWords(u, "a.b") == ["a", "b"]
  {
    assert "a.b" == "a" + ['.'] + "b";
    RunWordsSplit(u, "a", '.', "b");
    RunWordsWord(u, "a");
    RunWordsWord(u, "b");
    assert MapChars("a", LowerChar(u)) == "a";
    assert MapChars("b", LowerChar(u)) == "b";
  }

  /** A stretch without letters or numbers at the start, at the end, or between two parts: at the ends it adds no
      word, and between two parts it ends the first part's last word whichever way words are found, provided, for
      separator normalisation, that it holds only separators. */
  lemma {:induction false} RunWordsGapStart(u: Table, g: string, b: string)
    requires NoneOf(g, WordChar(u))
    ensures RunWords(u, g + b) == RunWords(u, b)
  {
    if g != [] {
      var t := g[1..] + b;
      assert RunWords(u, g + b) == RunWords(u, t) by {
        assert !WordChar(u)(g[0]);
        assert g + b == [] + [g[0]] + t;
        RunWordsSplit(u, [], g[0], t);
        assert RunWords(u, []) == [];
      }
      NoneOfTail(g, WordChar(u));
      RunWordsGapStart(u, g[1..], b);
    } else {
      assert g + b == b;
    }
  }

  lemma {:induction false} RunWordsGapEnd(u: Table, a: string, g: string)
    requires NoneOf(g, WordChar(u))
    ensures RunWords(u, a + g) == RunWords(u, a)
  {
    if g != [] {
      var n := |g| - 1;
      assert RunWords(u, a + g) == RunWords(u, a + g[..n]) by {
        assert !WordChar(u)(g[n]);
        assert a + g == (a + g[..n]) + [g[n]] + [];
        RunWordsSplit(u, a + g[..n], g[n], []);
        assert RunWords(u, []) == [];
      }
      NoneOfFront(g, WordChar(u));
      RunWordsGapEnd(u, a, g[..n]);
    } else {
      assert a + g == a;
    }
  }

  lemma RunWordsGap(u: Table, a: string, g: string, b: string)
    requires g != [] && NoneOf(g, WordChar(u))
    ensures RunWords(u, a + g + b) == RunWords(u, a) + RunWords(u, b)
  {
    assert a + g + b == a + [g[0]] + (g[1..] + b);
    RunWordsSplit(u, a, g[0], g[1..] + b);
    NoneOfTail(g, WordChar(u));
    RunWordsGapStart(u, g[1..], b);
  }

  lemma {:induction false} SeparatorWordsGapStart(u: Table, g: string, b: string)
    requires NoneOf(g, WordChar(u))
    ensures SeparatorWords(u, g + b) == SeparatorWords(u, b)
  {
    if g != [] {
      var t := g[1..] + b;
      assert SeparatorWords(u, g + b) == SeparatorWords(u, t) by {
        assert !WordChar(u)(g[0]);
        assert g + b == [] + [g[0]] + t;
        if IsSeparator(u, g[0]) {
          SeparatorWordsSplit(u, [], g[0], t);
          assert SeparatorWords(u, []) == [];
        } else {
          SeparatorWordsDeleted(u, [], g[0], t);
          assert [] + t == t;
        }
      }
      NoneOfTail(g, WordChar(u));
      SeparatorWordsGapStart(u, g[1..], b);
    } else {
      assert g + b == b;
    }
  }

  lemma {:induction false} SeparatorWordsGapEnd(u: Table, a: string, g: string)
    requires NoneOf(g, WordChar(u))
    ensures SeparatorWords(u, a + g) == SeparatorWords(u, a)
  {
    if g != [] {
      var n := |g| - 1;
      var t := a + g[..n];
      assert SeparatorWords(u, a + g) == SeparatorWords(u, t) by {
        assert !WordChar(u)(g[n]);
        assert a + g == t + [g[n]] + [];
        if IsSeparator(u, g[n]) {
          SeparatorWordsSplit(u, t, g[n], []);
          assert SeparatorWords(u, []) == [];
        } else {
          SeparatorWordsDeleted(u, t, g[n], []);
          assert t + [] == t;
        }
      }
      NoneOfFront(g, WordChar(u));
      SeparatorWordsGapEnd(u, a, g[..n]);
    } else {
      assert a + g == a;
    }
  }

  lemma SeparatorWordsGap(u: Table, a: string, g: string, b: string)
    requires Wf(u)
    requires g != [] && All(g, SeparatorChar(u))
    ensures SeparatorWords(u, a + g + b) == SeparatorWords(u, a) + SeparatorWords(u, b)
  {
    var t := g[1..] + b;
    assert SeparatorWords(u, a + g + b) == SeparatorWords(u, a) + SeparatorWords(u, t) by {
      assert SeparatorChar(u)(g[0]);
      assert a + g + b == a + [g[0]] + t;
      SeparatorWordsSplit(u, a, g[0], t);
    }
    assert NoneOf(g[1..], WordChar(u)) by {
      forall i | 0 <= i < |g[1..]|
        ensures !WordChar(u)(g[1..][i])
      {
        assert g[1..][i] == g[i + 1] && SeparatorChar(u)(g[i + 1]);
        if IsWordChar(u, g[i + 1]) {
          WordCharIsNotSeparator(u, g[i + 1]);
        }
      }
    }
    SeparatorWordsGapStart(u, g[1..], b);
  }

  // ---------------------------------------------------------------------------------------------------------
  // Strings spelled out of words and gaps (for the literal examples)

  /** `gaps[0] + words[0] + gaps[1] + ... + words[n - 1] + gaps[n]` */
  function Spell(gaps: seq<string>, words: seq<string>): string
    requires |gaps| == |words| + 1
  {
    if words == [] then gaps[0] else gaps[0] + (words[0] + Spell(gaps[1..], words[1..]))
  }

  // Spelled strings of one to four words, written out.

  lemma SpellOne(g0: string, g1: string, w0: string)
    ensures Spell([g0, g1], [w0]) == g0 + (w0 + g1)
  {
    assert [g0, g1][1..] == [g1] && [w0][1..] == [];
  }

  lemma SpellTwo(g0: string, g1: string, g2: string, w0: string, w1: string)
    ensures Spell([g0, g1, g2], [w0, w1]) == g0 + (w0 + (g1 + (w1 + g2)))
  {
    assert [g0, g1, g2][1..] == [g1, g2] && [w0, w1][1..] == [w1];
    SpellOne(g1, g2, w1);
  }

  lemma SpellThree(g0: string, g1: string, g2: string, g3: string, w0: string, w1: string, w2: string)
    ensures Spell([g0, g1, g2, g3], [w0, w1, w2]) == g0 + (w0 + (g1 + (w1 + (g2 + (w2 + g3)))))
  {
    assert [g0, g1, g2, g3][1..] == [g1, g2, g3] && [w0, w1, w2][1..] == [w1, w2];
    SpellTwo(g1, g2, g3, w1, w2);
  }

  lemma SpellFour(g0: string, g1: string, g2: string, g3: string, g4: string, w0: string, w1: string, w2: string, w3: string)
    ensures Spell([g0, g1, g2, g3, g4], [w0, w1, w2, w3]) == g0 + (w0 + (g1 + (w1 + (g2 + (w2 + (g3 + (w3 + g4)))))))
  {
    assert [g0, g1, g2, g3, g4][1..] == [g1, g2, g3, g4] && [w0, w1, w2, w3][1..] == [w1, w2, w3];
    SpellThree(g1, g2, g3, g4, w1, w2, w3);
  }

  /** `lw` is `w`, a string of letters and numbers, lower-cased. */
  predicate LowersTo(u: Table, w: string, lw: string) {
    |w| == |lw| && forall i :: 0 <= i < |w| ==> IsWordChar(u, w[i]) && ToLower(u, w[i]) == lw[i]
  }

  /** Each word is non-empty and lowers to the word at the same place in `lowered`. */
  predicate LowerEach(u: Table, words: seq<string>, lowered: seq<string>) {
    |words| == |lowered| && forall i :: 0 <= i < |words| ==> words[i] != [] && LowersTo(u, words[i], lowered[i])
  }

  /** Every gap but the first and the last is non-empty and holds no letter or number (`InnerBlanks`), or holds
      only separators (`InnerSeparators`). */
  predicate InnerBlanks(u: Table, gaps: seq<string>) {
    forall i :: 0 < i < |gaps| - 1 ==> gaps[i] != [] && NoneOf(gaps[i], WordChar(u))
  }

  predicate InnerSeparators(u: Table, gaps: seq<string>) {
    forall i :: 0 < i < |gaps| - 1 ==> gaps[i] != [] && All(gaps[i], SeparatorChar(u))
  }

  /** A non-empty word that lowers to `lw` is the one word `lw`, whichever way words are found. */
  lemma LoweredWord(u: Table, w: string, lw: string)
    requires w != [] && LowersTo(u, w, lw)
    ensures RunWords(u, w) == [lw]
    ensures Wf(u) ==> SeparatorWords(u, w) == [lw]
  {
    assert All(w, WordChar(u));
    assert MapChars(w, LowerChar(u)) == lw;
    RunWordsWord(u, w);
    if Wf(u) {
      SeparatorWordsWord(u, w);
    }
  }

  /** The words of a spelled string are its words, lower-cased, when the gaps between them hold no letter or number. */
  lemma {:induction false} RunWordsSpelled(u: Table, gaps: seq<string>, words: seq<string>, lowered: seq<string>)
    requires |gaps| == |words| + 1
    requires NoneOf(gaps[0], WordChar(u)) && NoneOf(gaps[|words|], WordChar(u)) && InnerBlanks(u, gaps)
    requires LowerEach(u, words, lowered)
    ensures RunWords(u, Spell(gaps, words)) == lowered
  {
    if words == [] {
      RunWordsNone(u, gaps[0]);
    } else {
      BlanksRest(u, gaps, words);
      LowerEachRest(u, words, lowered);
      RunWordsFirst(u, gaps, words, lowered[0]);
      RunWordsSpelled(u, gaps[1..], words[1..], lowered[1..]);
    }
  }

  lemma RunWordsNone(u: Table, g: string)
    requires NoneOf(g, WordChar(u))
    ensures RunWords(u, g) == []
  {
    RunWordsGapStart(u, g, []);
    assert g + [] == g;
  }

  lemma BlanksRest(u: Table, gaps: seq<string>, words: seq<string>)
    requires |gaps| == |words| + 1 && words != []
    requires NoneOf(gaps[|words|], WordChar(u)) && InnerBlanks(u, gaps)
    ensures |words| > 1 ==> gaps[1] != []
    ensures NoneOf(gaps[1], WordChar(u))
    ensures NoneOf(gaps[1..][0], WordChar(u)) && NoneOf(gaps[1..][|words| - 1], WordChar(u)) && InnerBlanks(u, gaps[1..])
  {
    assert forall i :: 0 < i < |gaps| - 2 ==> gaps[1..][i] == gaps[i + 1];
  }

  /** The first word of a spelled string, and the rest. */
  lemma RunWordsFirst(u: Table, gaps: seq<string>, words: seq<string>, lw: string)
    requires |gaps| == |words| + 1 && words != []
    requires NoneOf(gaps[0], WordChar(u)) && words[0] != [] && LowersTo(u, words[0], lw)
    requires NoneOf(gaps[1], WordChar(u)) && (|words| > 1 ==> gaps[1] != [])
    ensures RunWords(u, Spell(gaps, words)) == [lw] + RunWords(u, Spell(gaps[1..], words[1..]))
  {
    var rest := Spell(gaps[1..], words[1..]);
    RunWordsGapStart(u, gaps[0], words[0] + rest);
    if |words| == 1 {
      RunWordsLast(u, words[0], lw, gaps[1]);
    } else {
      RunWordsLead(u, words[0], lw, gaps[1], words[1] + Spell(gaps[2..], words[2..]));
    }
  }

  lemma RunWordsLast(u: Table, w: string, lw: string, g: string)
    requires w != [] && LowersTo(u, w, lw)
    requires NoneOf(g, WordChar(u))
    ensures RunWords(u, w + Spell([g], [])) == [lw] + RunWords(u, Spell([g], []))
  {
    RunWordsGapEnd(u, w, g);
    RunWordsNone(u, g);
    LoweredWord(u, w, lw);
  }

  lemma RunWordsLead(u: Table, w: string, lw: string, g: string, t: string)
    requires w != [] && LowersTo(u, w, lw)
    requires g != [] && NoneOf(g, WordChar(u))
    ensures RunWords(u, w + (g + t)) == [lw] + RunWords(u, g + t)
  {
    RunWordsAcross(u, w, g, t);
    RunWordsGapStart(u, g, t);
    LoweredWord(u, w, lw);
  }

  lemma RunWordsAcross(u: Table, w: string, g: string, t: string)
    requires g != [] && NoneOf(g, WordChar(u))
    ensures RunWords(u, w + (g + t)) == RunWords(u, w) + RunWords(u, t)
  {
    assert w + (g + t) == w + g + t;
    RunWordsGap(u, w, g, t);
  }

  /** The same for separator normalisation, when the gaps between the words are made of separators. */
  lemma {:induction false} SeparatorWordsSpelled(u: Table, gaps: seq<string>, words: seq<string>, lowered: seq<string>)
    requires Wf(u)
    requires |gaps| == |words| + 1
    requires NoneOf(gaps[0], WordChar(u)) && NoneOf(gaps[|words|], WordChar(u)) && InnerSeparators(u, gaps)
    requires LowerEach(u, words, lowered)
    ensures SeparatorWords(u, Spell(gaps, words)) == lowered
  {
    if words == [] {
      SeparatorWordsNone(u, gaps[0]);
    } else {
      SeparatorsRest(u, gaps, words);
      LowerEachRest(u, words, lowered);
      SeparatorWordsFirst(u, gaps, words, lowered[0]);
      SeparatorWordsSpelled(u, gaps[1..], words[1..], lowered[1..]);
    }
  }

  lemma SeparatorWordsNone(u: Table, g: string)
    requires NoneOf(g, WordChar(u))
    ensures SeparatorWords(u, g) == []
  {
    SeparatorWordsGapStart(u, g, []);
    assert g + [] == g;
  }

  lemma SeparatorsRest(u: Table, gaps: seq<string>, words: seq<string>)
    requires Wf(u)
    requires |gaps| == |words| + 1 && words != []
    requires NoneOf(gaps[|words|], WordChar(u)) && InnerSeparators(u, gaps)
    ensures |words| == 1 ==> NoneOf(gaps[1], WordChar(u))
    ensures |words| > 1 ==> gaps[1] != [] && All(gaps[1], SeparatorChar(u))
    ensures NoneOf(gaps[1..][0], WordChar(u)) && NoneOf(gaps[1..][|words| - 1], WordChar(u)) && InnerSeparators(u, gaps[1..])
  {
    if |words| > 1 {
      SeparatorsAreBlank(u, gaps[1]);
    }
    assert forall i :: 0 < i < |gaps| - 2 ==> gaps[1..][i] == gaps[i + 1];
  }

  lemma LowerEachRest(u: Table, words: seq<string>, lowered: seq<string>)
    requires words != [] && LowerEach(u, words, lowered)
    ensures words[0] != [] && LowersTo(u, words[0], lowered[0]) && LowerEach(u, words[1..], lowered[1..])
    ensures lowered == [lowered[0]] + lowered[1..]
  {
    assert forall i :: 0 <= i < |words| - 1 ==> words[1..][i] == words[i + 1] && lowered[1..][i] == lowered[i + 1];
  }

  /** The first word of a spelled string, and the rest. */
  lemma SeparatorWordsFirst(u: Table, gaps: seq<string>, words: seq<string>, lw: string)
    requires Wf(u)
    requires |gaps| == |words| + 1 && words != []
    requires NoneOf(gaps[0], WordChar(u)) && words[0] != [] && LowersTo(u, words[0], lw)
    requires |words| == 1 ==> NoneOf(gaps[1], WordChar(u))
    requires |words| > 1 ==> gaps[1] != [] && All(gaps[1], SeparatorChar(u))
    ensures SeparatorWords(u, Spell(gaps, words)) == [lw] + SeparatorWords(u, Spell(gaps[1..], words[1..]))
  {
    var rest := Spell(gaps[1..], words[1..]);
    SeparatorWordsGapStart(u, gaps[0], words[0] + rest);
    if |words| == 1 {
      SeparatorWordsLast(u, words[0], lw, gaps[1]);
    } else {
      SeparatorWordsLead(u, words[0], lw, gaps[1], words[1] + Spell(gaps[2..], words[2..]));
    }
  }

  lemma SeparatorWordsLast(u: Table, w: string, lw: string, g: string)
    requires Wf(u)
    requires w != [] && LowersTo(u, w, lw)
    requires NoneOf(g, WordChar(u))
    ensures SeparatorWords(u, w + Spell([g], [])) == [lw] + SeparatorWords(u, Spell([g], []))
  {
    SeparatorWordsGapEnd(u, w, g);
    SeparatorWordsNone(u, g);
    LoweredWord(u, w, lw);
  }

  lemma SeparatorWordsLead(u: Table, w: string, lw: string, g: string, t: string)
    requires Wf(u)
    requires w != [] && LowersTo(u, w, lw)
    requires g != [] && All(g, SeparatorChar(u))
    ensures SeparatorWords(u, w + (g + t)) == [lw] + SeparatorWords(u, g + t)
  {
    SeparatorWordsAcross(u, w, g, t);
    SeparatorWordsAfter(u, g, t);
    LoweredWord(u, w, lw);
  }

  lemma SeparatorWordsAcross(u: Table, w: string, g: string, t: string)
    requires Wf(u)
    requires g != [] && All(g, SeparatorChar(u))
    ensures SeparatorWords(u, w + (g + t)) == SeparatorWords(u, w) + SeparatorWords(u, t)
  {
    assert w + (g + t) == w + g + t;
    SeparatorWordsGap(u, w, g, t);
  }

  lemma SeparatorWordsAfter(u: Table, g: string, t: string)
    requires Wf(u)
    requires All(g, SeparatorChar(u))
    ensures SeparatorWords(u, g + t) == SeparatorWords(u, t)
  {
    SeparatorsAreBlank(u, g);
    SeparatorWordsGapStart(u, g, t);
  }

  lemma SeparatorsAreBlank(u: Table, g: string)
    requires Wf(u) && All(g, SeparatorChar(u))
    ensures NoneOf(g, WordChar(u))
  {
    forall i | 0 <= i < |g|
      ensures !WordChar(u)(g[i])
    {
      assert SeparatorChar(u)(g[i]);
      if IsWordChar(u, g[i]) {
        WordCharIsNotSeparator(u, g[i]);
      }
    }
  }

  // ---------------------------------------------------------------------------------------------------------
  // camelCase assembly

  /** The assembled word starts with the first word, keeps every later word's length, and is made only of letters
      and numbers, so it holds no separator. */
  lemma CamelJoinShape(u: Table, ws: seq<string>)
    requires Wf(u)
    requires ws != [] && LowerWords(u, ws)
    ensures var r := CamelJoin(u, ws);
      && r[..|ws[0]|] == ws[0]
      && |r| == |Join(ws, [])|
      && All(r, WordChar(u))
      && NoneOf(r, SeparatorChar(u))
  {
    CapsShape(u, ws[1..]);
    JoinCons(ws[0], ws[1..], []);
    assert ws == [ws[0]] + ws[1..];
    assert IsLowerWord(u, ws[0]);
    WordGlue(u, ws[0], Join(CapitalizeEach(ws[1..], UpperChar(u)), []));
  }

  /** Two strings of letters and numbers glued together. */
  lemma WordGlue(u: Table, w: string, j: string)
    requires Wf(u) && All(w, WordChar(u)) && All(j, WordChar(u))
    ensures (w + j)[..|w|] == w && All(w + j, WordChar(u)) && NoneOf(w + j, SeparatorChar(u))
  {
    var r := w + j;
    forall i | 0 <= i < |r|
      ensures WordChar(u)(r[i]) && !SeparatorChar(u)(r[i])
    {
      if i < |w| {
        assert r[i] == w[i];
      } else {
        assert r[i] == j[i - |w|];
      }
      WordCharIsNotSeparator(u, r[i]);
    }
  }

  // camelCase assembly of two to four words, written out.

  lemma CamelJoinTwo(u: Table, a: string, b: string)
    ensures CamelJoin(u, [a, b]) == a + Capitalize(b, UpperChar(u))
  {
    assert [a, b][1..] == [b];
    assert CapitalizeEach([b], UpperChar(u)) == [Capitalize(b, UpperChar(u))];
  }
  lemma CamelJoinThree(u: Table, a: string, b: string, c: string)
    ensures CamelJoin(u, [a, b, c]) == a + (Capitalize(b, UpperChar(u)) + Capitalize(c, UpperChar(u)))
  {
    var f := UpperChar(u);
    var B, C := Capitalize(b, f), Capitalize(c, f);
    assert [a, b, c][1..] == [b, c];
    assert CapitalizeEach([b, c], f) == [B] + [C];
    JoinCons(B, [C], []);
    assert B + [] == B;
  }
  lemma CamelJoinFour(u: Table, a: string, b: string, c: string, d: string)
    ensures CamelJoin(u, [a, b, c, d]) == a + (Capitalize(b, UpperChar(u)) + (Capitalize(c, UpperChar(u)) + Capitalize(d, UpperChar(u))))
  {
    var f := UpperChar(u);
    var B, C, D := Capitalize(b, f), Capitalize(c, f), Capitalize(d, f);
    assert [a, b, c, d][1..] == [b, c, d];
    assert CapitalizeEach([b, c, d], f) == [B] + [C, D];
    JoinCons(B, [C, D], []);
    JoinCons(C, [D], []);
    assert [C, D] == [C] + [D];
    assert B + [] == B && C + [] == C;
  }

  lemma {:induction false} CapsShape(u: Table, ws: seq<string>)
    requires Wf(u)
    requires LowerWords(u, ws)
    ensures var j := Join(CapitalizeEach(ws, UpperChar(u)), []); |j| == |Join(ws, [])| && All(j, WordChar(u))
  {
    if ws != [] {
      CapsShape(u, ws[1..]);
      CapsStep(u, ws[0], ws[1..]);
      assert ws == [ws[0]] + ws[1..];
    }
  }

  lemma CapsStep(u: Table, w: string, ws: seq<string>)
    requires Wf(u) && w != [] && All(w, WordChar(u))
    requires var j := Join(CapitalizeEach(ws, UpperChar(u)), []); |j| == |Join(ws, [])| && All(j, WordChar(u))
    ensures var j := Join(CapitalizeEach([w] + ws, UpperChar(u)), []); |j| == |Join([w] + ws, [])| && All(j, WordChar(u))
  {
    var f := UpperChar(u);
    var c := Capitalize(w, f);
    assert ([w] + ws)[1..] == ws;
    assert CapitalizeEach([w] + ws, f) == [c] + CapitalizeEach(ws, f);
    JoinCons(c, CapitalizeEach(ws, f), []);
    JoinCons(w, ws, []);
    CapitalizedWord(u, w);
    WordGlue(u, c, Join(CapitalizeEach(ws, f), []));
  }

  /** Capitalising a word of letters and numbers keeps it one. */
  lemma CapitalizedWord(u: Table, w: string)
    requires Wf(u) && w != [] && All(w, WordChar(u))
    ensures All(Capitalize(w, UpperChar(u)), WordChar(u))
  {
    var c := Capitalize(w, UpperChar(u));
    forall i | 0 <= i < |c|
      ensures WordChar(u)(c[i])
    {
      if i > 0 {
        assert c[i] == w[i];
      }
    }
  }
}
