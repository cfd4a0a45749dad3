/** few_shot_prompt.js: `toCamelCase`, the same expression as basic_prompt.js. */
module FewShotPrompt {
  import opened Unicode
  import opened Js
  import opened JsString
  import opened CaseWords
  import BasicPrompt

  /** `toCamelCase` (few_shot_prompt.js:2-8) */
  function ToCamelCase(u: Table, text: Value): (r: string)
    ensures !Truthy(text) ==> r == []
  {
    if !Truthy(text) then []
    else
      var words := MatchRuns(ToString(text), WordChar(u));
      if words == [] then []
      else CamelJoin(u, MapEach(words, LowerChar(u)))
  }

  /** It gives what basic_prompt.js gives, for every argument. */
  lemma SameAsBasicPrompt(u: Table, text: Value)
    ensures ToCamelCase(u, text) == BasicPrompt.ToCamelCase(u, text)
  {
  }

  /** `""` exactly for a falsy argument or one without letters or numbers; otherwise the camelCase assembly of the
      lower-cased maximal runs, starting with the first, made only of letters and numbers, so with no separator. */
  lemma CamelCaseShape(u: Table, text: Value)
    requires Wf(u)
    ensures var s, r := ToString(text), ToCamelCase(u, text);
      && (r == [] <==> !Truthy(text) || NoneOf(s, WordChar(u)))
      && (r != [] ==> var ws := RunWords(u, s);
            && ws != [] && r == CamelJoin(u, ws)
            && r[..|ws[0]|] == ws[0]
            && All(r, WordChar(u))
            && NoneOf(r, SeparatorChar(u)))
  {
    SameAsBasicPrompt(u, text);
    BasicPrompt.CamelCaseShape(u, text);
  }

  /** Punctuation splits words: `a.b` gives `aB`. */
  lemma DotInWord(u: Table)
    ensures ToCamelCase(u, Str("a.b")) == "aB"
  {
    SameAsBasicPrompt(u, Str("a.b"));
    BasicPrompt.DotInWord(u);
  }
}
