/** basic_prompt.js: `toCamelCase` by maximal-run extraction.

    A falsy argument gives `""`; otherwise the words are the maximal runs of letters and numbers of `String(text)`,
    each lower-cased, and the result is the first word followed by every later word with its first character
    upper-cased. There is no argument check. A `String(text)` conversion that throws is not modelled:
    `Js.Value.Other` always carries a text. */
module BasicPrompt {
  import opened Unicode
  import opened Js
  import opened JsString
  import opened CaseWords
  import StringLib
  import StringTests

  /** `toCamelCase` (basic_prompt.js:1-8) */
  function ToCamelCase(u: Table, text: Value): (r: string)
    ensures !Truthy(text) ==> r == []
  {
    if !Truthy(text) then []
    else
      var words := MatchRuns(ToString(text), WordChar(u));
      if words == [] then []
      else CamelJoin(u, MapEach(words, LowerChar(u)))
  }

  /** The result is `""` exactly when the argument is falsy or has no letter or number. Otherwise it is the camelCase
      assembly of the lower-cased maximal runs: it starts with the first run lower-cased, has one character per
      letter or number of the argument's runs, and holds only letters and numbers, so no separator. */
  lemma CamelCaseShape(u: Table, text: Value)
    requires Wf(u)
    ensures var s, r := ToString(text), ToCamelCase(u, text);
      && (r == [] <==> !Truthy(text) || NoneOf(s, WordChar(u)))
      && (r != [] ==> var ws := RunWords(u, s);
            && ws != [] && r == CamelJoin(u, ws)
            && r[..|ws[0]|] == ws[0]
            && |r| == |Join(ws, [])|
            && All(r, WordChar(u))
            && NoneOf(r, SeparatorChar(u)))
  {
    var s := ToString(text);
    var ws := RunWords(u, s);
    MatchRunsEmpty(s, WordChar(u));
    if Truthy(text) && ws != [] {
      RunWordsShape(u, s);
      CamelJoinShape(u, ws);
    }
  }

  /** Wherever punctuation stands only at the edge of a word (`a!-b`, `!a b`, `  This-is_an Example!  `) it gives
      what lib/string.js gives. */
  lemma AgreesWithStringLib(u: Table, s: string)
    requires Wf(u) && SeparatorBetweenWords(u, s)
    ensures StringLib.ToCamelCase(u, Str(s)) == Ok(ToCamelCase(u, Str(s)))
  {
    WordsAgreeSeparated(u, s);
    StringLib.CamelCaseWords(u, s);
    MatchRunsEmpty(s, WordChar(u));
    RunWordsEmpty(u, s);
  }

  /** ... but not on punctuation inside a word: `a.b` is `aB` here and `ab` in lib/string.js. */
  lemma DiffersFromStringLib(u: Table)
    requires Wf(u)
    ensures ToCamelCase(u, Str("a.b")) == "aB"
    ensures StringLib.ToCamelCase(u, Str("a.b")) == Ok("ab")
  {
    DotInWord(u);
    StringLibDotInWord(u);
  }

  lemma DotInWord(u: Table)
    ensures ToCamelCase(u, Str("a.b")) == "aB"
  {
    RunWordsDot(u);
    CamelJoinTwo(u, "a", "b");
    CamelOfRuns(u, "a.b", ["a", "b"], "aB");
  }

  lemma StringLibDotInWord(u: Table)
    requires Wf(u)
    ensures StringLib.ToCamelCase(u, Str("a.b")) == Ok("ab")
  {
    SeparatorWordsDot(u);
    StringLib.CamelOfWords(u, "a.b", ["ab"], "ab");
  }

  /** Letters outside ASCII are letters: `éxemple test` gives `éxempleTest` on the Latin-1 table. */
  lemma Exemple()
    ensures ToCamelCase(Latin1, Str("éxemple test")) == "éxempleTest"
  {
    StringTests.ExempleRuns();
    StringTests.ExempleCamel();
    CamelOfRuns(Latin1, "éxemple test", ["éxemple", "test"], "éxempleTest");
  }

  lemma CamelOfRuns(u: Table, s: string, ws: seq<string>, r: string)
    requires s != [] && RunWords(u, s) == ws && ws != [] && CamelJoin(u, ws) == r
    ensures ToCamelCase(u, Str(s)) == r
  {
  }
}
