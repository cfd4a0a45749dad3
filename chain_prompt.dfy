/** chain_prompt.js: `toKebabCase`, the same checks and steps as in lib/string.js. */
module ChainPrompt {
  import opened Unicode
  import opened Js
  import opened JsString
  import opened CaseWords
  import StringLib
  import StringTests

  /** `toKebabCase` (chain_prompt.js:13-32): the checks, then lower-case, every run of characters that are not
      letters or numbers to one `-`, the safety deletion, `-` trimmed off both ends. */
  function ToKebabCase(u: Table, text: Value): (r: Result)
    ensures text.Null? || text.Undefined? ==> r == Err(NullOrUndefined)
    ensures text.Other? ==> r == Err(NotAString(text.typeName))
    ensures text.Str? ==> (r == Err(EmptyString) <==> Trim(text.s, SpaceChar(u)) == [])
    ensures text.Str? ==> (r.Ok? <==> Trim(text.s, SpaceChar(u)) != [])
  {
    var checked := ExpectString(text);
    if checked.Err? then checked
    else
      var trimmed := Trim(checked.value, SpaceChar(u));
      if trimmed == [] then Err(EmptyString)
      else
        var lowered := MapChars(trimmed, LowerChar(u));
        var collapsed := ReplaceRuns(lowered, NonWordChar(u), "-");
        var safe := Delete(collapsed, NonWordNorHyphen(u));
        Ok(Trim(safe, IsChar('-')))
  }

  /** It gives what the lib/string.js version gives, for every argument. */
  lemma SameAsStringLib(u: Table, text: Value)
    ensures ToKebabCase(u, text) == StringLib.ToKebabCase(u, text)
  {
  }

  /** A non-blank string gives its maximal runs of letters and numbers, lower-cased, joined with `-`. */
  lemma KebabCaseRuns(u: Table, s: string)
    requires Wf(u)
    requires Trim(s, SpaceChar(u)) != []
    ensures ToKebabCase(u, Str(s)) == Ok(Join(RunWords(u, s), "-"))
  {
    SameAsStringLib(u, Str(s));
    StringLib.KebabCaseRuns(u, s);
  }

  /** The result holds only letters, numbers and `-`, has no `-` at either end and never two side by side
      (chain_prompt.js:27-29). */
  lemma KebabCaseShape(u: Table, s: string)
    requires Wf(u)
    requires Trim(s, SpaceChar(u)) != []
    ensures var r := ToKebabCase(u, Str(s)).value;
      && StringLib.KebabChars(u, r)
      && (r != [] ==> r[0] != '-' && r[|r| - 1] != '-')
      && NoDouble(r, '-')
  {
    var ws := RunWords(u, s);
    KebabCaseRuns(u, s);
    RunWordsShape(u, s);
    if ws != [] {
      StringLib.NoDotInWords(u, ws);
      JoinShape(ws, '-');
      StringLib.KebabCharsAreWordChars(u, ws);
    }
  }

  /** The deletion at chain_prompt.js:28 finds nothing to delete in what line 27 made. */
  lemma SafetyStepNoOp(u: Table, t: string)
    ensures var collapsed := ReplaceRuns(MapChars(t, LowerChar(u)), NonWordChar(u), "-");
      Delete(collapsed, NonWordNorHyphen(u)) == collapsed
  {
    StringLib.SafetyStepNoOp(u, t);
  }

  /** The two examples of the doc comment (chain_prompt.js:8-11), which are also cases of tests/string.test.js:39-40. */
  lemma DocExamples(u: Table)
    requires Wf(u)
    ensures ToKebabCase(u, Str("Hello World")) == Ok("hello-world")
    ensures ToKebabCase(u, Str(" hello__world-test ")) == Ok("hello-world-test")
  {
    SameAsStringLib(u, Str("Hello World"));
    SameAsStringLib(u, Str(" hello__world-test "));
    StringTests.KebabHelloWorld(u);
    StringTests.KebabHelloWorldTest(u);
  }
}
