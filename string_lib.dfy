/** lib/string.js: `toCamelCase`, `toDotCase` and `toKebabCase`.

    Each conversion takes a `Js.Value`, throws (returns `Err`) for `null`/`undefined` and then for anything that is
    not a string, and otherwise converts the string. The character classes and case mappings come from a
    `Unicode.Table`. */
module StringLib {
  import opened Unicode
  import opened Js
  import opened JsString
  import opened CaseWords

  /** `toCamelCase` after the argument checks (lib/string.js:31-47) */
  function CamelCase(u: Table, text: string): string {
    var trimmed := Trim(text, SpaceChar(u));
    if trimmed == [] then []
    else
      var words := SeparatorWords(u, trimmed);
      if words == [] then [] else CamelJoin(u, words)
  }

  function ToCamelCase(u: Table, text: Value): (r: Result)
    ensures text.Null? || text.Undefined? ==> r == Err(NullOrUndefined)
    ensures text.Other? ==> r == Err(NotAString(text.typeName))
    ensures text.Str? ==> r.Ok?
  {
    var checked := ExpectString(text);
    if checked.Err? then checked else Ok(CamelCase(u, checked.value))
  }

  /** `toDotCase` after the argument checks (lib/string.js:78-92) */
  function DotCase(u: Table, text: string): string {
    var trimmed := Trim(text, SpaceChar(u));
    if trimmed == [] then []
    else
      var words := SeparatorWords(u, trimmed);
      if words == [] then [] else Join(words, ".")
  }

  function ToDotCase(u: Table, text: Value): (r: Result)
    ensures text.Null? || text.Undefined? ==> r == Err(NullOrUndefined)
    ensures text.Other? ==> r == Err(NotAString(text.typeName))
    ensures text.Str? ==> r.Ok?
  {
    var checked := ExpectString(text);
    if checked.Err? then checked else Ok(DotCase(u, checked.value))
  }

  /** The steps of `toKebabCase` on the trimmed string (lib/string.js:127-133): lower-case, every run of
      characters that are not letters or numbers to one `-`, the safety deletion, `-` trimmed off both ends. */
  function Hyphenate(u: Table, trimmed: string): (r: string)
    ensures r != [] ==> r[0] != '-' && r[|r| - 1] != '-'
  {
    var lowered := MapChars(trimmed, LowerChar(u));
    var collapsed := ReplaceRuns(lowered, NonWordChar(u), "-");
    var safe := Delete(collapsed, NonWordNorHyphen(u));
    Trim(safe, IsChar('-'))
  }

  function ToKebabCase(u: Table, text: Value): (r: Result)
    ensures text.Null? || text.Undefined? ==> r == Err(NullOrUndefined)
    ensures text.Other? ==> r == Err(NotAString(text.typeName))
    ensures text.Str? ==> (r == Err(EmptyString) <==> Trim(text.s, SpaceChar(u)) == [])
    ensures text.Str? ==> (r.Ok? <==> Trim(text.s, SpaceChar(u)) != [])
  {
    var checked := ExpectString(text);
    if checked.Err? then checked
    else
      var trimmed := Trim(checked.value, SpaceChar(u));
      if trimmed == [] then Err(EmptyString) else Ok(Hyphenate(u, trimmed))
  }

  // ---------------------------------------------------------------------------------------------------------
  // toCamelCase and toDotCase

  /** Trimming and the early returns make no difference: the result is assembled from the words of the whole string. */
  lemma CamelCaseWords(u: Table, s: string)
    requires Wf(u)
    ensures var ws := SeparatorWords(u, s); CamelCase(u, s) == if ws == [] then [] else CamelJoin(u, ws)
  {
    SeparatorWordsTrim(u, s);
    if Trim(s, SpaceChar(u)) == [] {
      SeparatorWordsBlank(u, []);
    }
  }

  lemma DotCaseWords(u: Table, s: string)
    requires Wf(u)
    ensures DotCase(u, s) == Join(SeparatorWords(u, s), ".")
  {
    SeparatorWordsTrim(u, s);
    if Trim(s, SpaceChar(u)) == [] {
      SeparatorWordsBlank(u, []);
    }
  }

  /** `toCamelCase` returns `""` exactly when the string has no letter or number, blank strings included; otherwise
      it is made of letters and numbers only, holds no separator, has one character per letter or number of the
      string, and starts with the first word. */
  lemma CamelCaseShape(u: Table, s: string)
    requires Wf(u)
    ensures var r := CamelCase(u, s);
      && (r == [] <==> NoneOf(s, WordChar(u)))
      && All(r, WordChar(u))
      && NoneOf(r, SeparatorChar(u))
      && |r| == |Delete(s, NonWordChar(u))|
      && (var ws := SeparatorWords(u, s); ws != [] ==> |ws[0]| <= |r| && r[..|ws[0]|] == ws[0])
  {
    var ws := SeparatorWords(u, s);
    var r := CamelCase(u, s);
    assert r == if ws == [] then [] else CamelJoin(u, ws) by {
      CamelCaseWords(u, s);
    }
    assert ws == [] <==> NoneOf(s, WordChar(u)) by {
      SeparatorWordsEmpty(u, s);
    }
    assert |Join(ws, [])| == |Delete(s, NonWordChar(u))| by {
      SeparatorWordsContent(u, s);
    }
    if ws != [] {
      assert LowerWords(u, ws) by {
        SeparatorWordsShape(u, s);
      }
      CamelJoinShape(u, ws);
      assert ws[0] != [];
    }
  }

  /** `toDotCase` returns `""` exactly when the string has no letter or number; otherwise it neither starts nor
      ends with `.`, never holds `..`, holds one `.` fewer than there are words, and without its dots it is the
      string's letters and numbers, lower-cased, in order. */
  lemma DotCaseShape(u: Table, s: string)
    requires Wf(u)
    ensures var r := DotCase(u, s);
      && (r == [] <==> NoneOf(s, WordChar(u)))
      && r == Join(SeparatorWords(u, s), ".")
      && (r != [] ==> r[0] != '.' && r[|r| - 1] != '.')
      && NoDouble(r, '.')
      && (r != [] ==> multiset(r)['.'] == |SeparatorWords(u, s)| - 1)
      && Delete(r, IsChar('.')) == MapChars(Delete(s, NonWordChar(u)), LowerChar(u))
  {
    var ws := SeparatorWords(u, s);
    var r := DotCase(u, s);
    DotCaseWords(u, s);
    SeparatorWordsEmpty(u, s);
    SeparatorWordsContent(u, s);
    if ws != [] {
      SeparatorWordsShape(u, s);
      NoDotInWords(u, ws);
      JoinShape(ws, '.');
      SplitJoin(ws, '.');
      JoinSplitPieces(r, IsChar('.'));
    }
  }

  lemma NoDotInWords(u: Table, ws: seq<string>)
    requires LowerWords(u, ws)
    ensures forall i :: 0 <= i < |ws| ==> ws[i] != [] && '.' !in ws[i] && '-' !in ws[i]
  {
    forall i, k | 0 <= i < |ws| && 0 <= k < |ws[i]|
      ensures ws[i][k] != '.' && ws[i][k] != '-'
    {
      assert WordChar(u)(ws[i][k]);
    }
  }

  /** Splitting the dot.case result at its dots gives back the words. */
  lemma DotCaseSplit(u: Table, s: string)
    requires Wf(u)
    requires !NoneOf(s, WordChar(u))
    ensures SplitBy(DotCase(u, s), IsChar('.')) == SeparatorWords(u, s)
  {
    var ws := SeparatorWords(u, s);
    DotCaseWords(u, s);
    SeparatorWordsEmpty(u, s);
    SeparatorWordsShape(u, s);
    NoDotInWords(u, ws);
    SplitJoin(ws, '.');
  }

  /** camelCase can be recovered from dot.case: split at the dots and assemble. */
  lemma CamelFromDot(u: Table, s: string)
    requires Wf(u)
    ensures var dot := DotCase(u, s);
      CamelCase(u, s) == if dot == [] then [] else CamelJoin(u, SplitBy(dot, IsChar('.')))
  {
    CamelCaseWords(u, s);
    DotCaseShape(u, s);
    SeparatorWordsEmpty(u, s);
    if !NoneOf(s, WordChar(u)) {
      DotCaseSplit(u, s);
    }
  }

  // ---------------------------------------------------------------------------------------------------------
  // toKebabCase

  /** The safety deletion (lib/string.js:131) finds nothing to delete. */
  lemma SafetyStepNoOp(u: Table, t: string)
    ensures var collapsed := ReplaceRuns(MapChars(t, LowerChar(u)), NonWordChar(u), "-");
      Delete(collapsed, NonWordNorHyphen(u)) == collapsed
  {
    ReplaceRunsNoneOf(MapChars(t, LowerChar(u)), NonWordChar(u), "-", NonWordNorHyphen(u));
  }

  /** The kebab-case steps join the lower-cased maximal runs of letters and numbers with `-`. */
  lemma HyphenateJoinsRuns(u: Table, t: string)
    requires Wf(u)
    ensures Hyphenate(u, t) == Join(RunWords(u, t), "-")
  {
    var p, q := WordChar(u), NonWordChar(u);
    var lowered := MapChars(t, LowerChar(u));
    var runs := MatchRuns(lowered, p);
    var collapsed := ReplaceRuns(lowered, q, "-");
    assert collapsed == Lead(lowered, q, '-') + Join(runs, "-") + Trail(lowered, p, q, '-') by {
      ReplaceRunsJoinsRuns(lowered, p, q, '-');
    }
    assert Delete(collapsed, NonWordNorHyphen(u)) == collapsed by {
      SafetyStepNoOp(u, t);
    }
    LoweredRuns(u, t);
    TrimJoin(Lead(lowered, q, '-'), runs, Trail(lowered, p, q, '-'), '-');
  }

  /** The runs of the lower-cased string are the lower-cased runs, and none holds `-`. */
  lemma LoweredRuns(u: Table, t: string)
    requires Wf(u)
    ensures var runs := MatchRuns(MapChars(t, LowerChar(u)), WordChar(u));
      runs == RunWords(u, t) && forall i :: 0 <= i < |runs| ==> runs[i] != [] && '-' !in runs[i]
  {
    MatchRunsMap(t, WordChar(u), LowerChar(u));
    RunWordsShape(u, t);
    NoDotInWords(u, RunWords(u, t));
  }

  /** `toKebabCase` of a string that is not blank is its lower-cased maximal runs of letters and numbers joined
      with `-`; white space at the ends makes no difference. */
  lemma KebabCaseRuns(u: Table, s: string)
    requires Wf(u)
    ensures ToKebabCase(u, Str(s)) == if Trim(s, SpaceChar(u)) == [] then Err(EmptyString) else Ok(Join(RunWords(u, s), "-"))
  {
    var t := Trim(s, SpaceChar(u));
    if t != [] {
      HyphenateJoinsRuns(u, t);
      TrimMatchRuns(s, SpaceChar(u), WordChar(u));
    }
  }

  /** The kebab-case result holds only letters, numbers and `-`, neither starts nor ends with `-`, never holds `--`,
      holds one `-` fewer than there are runs, and is `""` for a non-blank string without letters or numbers. */
  lemma KebabCaseShape(u: Table, s: string)
    requires Wf(u)
    requires Trim(s, SpaceChar(u)) != []
    ensures var r := ToKebabCase(u, Str(s)).value;
      && KebabChars(u, r)
      && (r == [] <==> NoneOf(s, WordChar(u)))
      && (r != [] ==> r[0] != '-' && r[|r| - 1] != '-')
      && NoDouble(r, '-')
      && (r != [] ==> multiset(r)['-'] == |RunWords(u, s)| - 1)
  {
    var ws := RunWords(u, s);
    KebabCaseRuns(u, s);
    RunWordsEmpty(u, s);
    RunWordsShape(u, s);
    if ws != [] {
      NoDotInWords(u, ws);
      JoinShape(ws, '-');
      KebabCharsAreWordChars(u, ws);
    }
  }

  /** Every character is a letter, a number or `-`. */
  predicate KebabChars(u: Table, r: string) {
    forall i :: 0 <= i < |r| ==> IsWordChar(u, r[i]) || r[i] == '-'
  }

  lemma {:induction false} KebabCharsAreWordChars(u: Table, ws: seq<string>)
    requires LowerWords(u, ws)
    ensures KebabChars(u, Join(ws, "-"))
  {
    if |ws| > 1 {
      KebabCharsAreWordChars(u, ws[1..]);
      var r, t := Join(ws, "-"), Join(ws[1..], "-");
      assert r == ws[0] + "-" + t;
      forall i | 0 <= i < |r|
        ensures IsWordChar(u, r[i]) || r[i] == '-'
      {
        if i < |ws[0]| {
          assert r[i] == ws[0][i];
          assert IsLowerWord(u, ws[0]);
          assert WordChar(u)(ws[0][i]);
        } else if i > |ws[0]| {
          assert r[i] == t[i - |ws[0]| - 1];
        }
      }
    } else if |ws| == 1 {
      assert IsLowerWord(u, ws[0]);
      forall i | 0 <= i < |ws[0]|
        ensures IsWordChar(u, ws[0][i])
      {
        assert WordChar(u)(ws[0][i]);
      }
    }
  }

  /** A string of punctuation alone is not blank, so it does not throw, and it gives `""`. */
  lemma KebabCasePunctuation(u: Table)
    requires Wf(u)
    ensures ToKebabCase(u, Str("!!!")) == Ok("")
  {
    assert Trim("!!!", SpaceChar(u)) == "!!!";
    assert RunWords(u, "!!!") == [] by {
      RunWordsEmpty(u, "!!!");
    }
    KebabCaseRuns(u, "!!!");
  }

  // ---------------------------------------------------------------------------------------------------------
  // From the words of a string to its conversions, for the literal examples

  lemma CamelOfWords(u: Table, s: string, ws: seq<string>, r: string)
    requires Wf(u)
    requires SeparatorWords(u, s) == ws && ws != [] && CamelJoin(u, ws) == r
    ensures ToCamelCase(u, Str(s)) == Ok(r)
  {
    CamelCaseWords(u, s);
  }

  lemma DotOfWords(u: Table, s: string, ws: seq<string>, r: string)
    requires Wf(u)
    requires SeparatorWords(u, s) == ws && Join(ws, ".") == r
    ensures ToDotCase(u, Str(s)) == Ok(r)
  {
    DotCaseWords(u, s);
  }

  lemma KebabOfRuns(u: Table, s: string, ws: seq<string>, r: string)
    requires Wf(u)
    requires !All(s, SpaceChar(u)) && RunWords(u, s) == ws && Join(ws, "-") == r
    ensures ToKebabCase(u, Str(s)) == Ok(r)
  {
    TrimEmpty(s, SpaceChar(u));
    KebabCaseRuns(u, s);
  }
}
