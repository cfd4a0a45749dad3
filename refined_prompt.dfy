/** refined_prompt.js: `toCamelCase` and `toDotCase`, written out again with the same checks and the same steps as in
    lib/string.js. */
module RefinedPrompt {
  import opened Unicode
  import opened Js
  import opened JsString
  import opened CaseWords
  import StringLib

  /** `toCamelCase` (refined_prompt.js:3-28) */
  function ToCamelCase(u: Table, text: Value): (r: Result)
    ensures text.Null? || text.Undefined? ==> r == Err(NullOrUndefined)
    ensures text.Other? ==> r == Err(NotAString(text.typeName))
    ensures text.Str? ==> r.Ok?
  {
    var checked := ExpectString(text);
    if checked.Err? then checked
    else
      var trimmed := Trim(checked.value, SpaceChar(u));
      if trimmed == [] then Ok([])
      else
        var words := SeparatorWords(u, trimmed);
        if words == [] then Ok([]) else Ok(CamelJoin(u, words))
  }

  /** `toDotCase` (refined_prompt.js:30-53) */
  function ToDotCase(u: Table, text: Value): (r: Result)
    ensures text.Null? || text.Undefined? ==> r == Err(NullOrUndefined)
    ensures text.Other? ==> r == Err(NotAString(text.typeName))
    ensures text.Str? ==> r.Ok?
  {
    var checked := ExpectString(text);
    if checked.Err? then checked
    else
      var trimmed := Trim(checked.value, SpaceChar(u));
      if trimmed == [] then Ok([])
      else
        var words := SeparatorWords(u, trimmed);
        if words == [] then Ok([]) else Ok(Join(words, "."))
  }

  /** Both functions give what the lib/string.js versions give, for every argument. */
  lemma SameAsStringLib(u: Table, text: Value)
    ensures ToCamelCase(u, text) == StringLib.ToCamelCase(u, text)
    ensures ToDotCase(u, text) == StringLib.ToDotCase(u, text)
  {
  }

  /** `toCamelCase` of a string: `""` exactly when there is no letter or number (blank strings included), otherwise
      the first word followed by the later words capitalised, with no separator left. */
  lemma CamelCaseShape(u: Table, s: string)
    requires Wf(u)
    ensures var r := ToCamelCase(u, Str(s)).value; var ws := SeparatorWords(u, s);
      && (r == [] <==> NoneOf(s, WordChar(u)))
      && (ws != [] ==> r == CamelJoin(u, ws))
      && LowerWords(u, ws)
      && All(r, WordChar(u))
      && NoneOf(r, SeparatorChar(u))
  {
    SameAsStringLib(u, Str(s));
    StringLib.CamelCaseWords(u, s);
    StringLib.CamelCaseShape(u, s);
    SeparatorWordsShape(u, s);
  }

  /** `toDotCase` of a string: `""` exactly when there is no letter or number, otherwise the words joined with `.`,
      with no `.` at either end and never two side by side. */
  lemma DotCaseShape(u: Table, s: string)
    requires Wf(u)
    ensures var r := ToDotCase(u, Str(s)).value;
      && (r == [] <==> NoneOf(s, WordChar(u)))
      && r == Join(SeparatorWords(u, s), ".")
      && (r != [] ==> r[0] != '.' && r[|r| - 1] != '.')
      && NoDouble(r, '.')
  {
    var ws := SeparatorWords(u, s);
    DotCaseOfString(u, s);
    StringLib.DotCaseWords(u, s);
    SeparatorWordsEmpty(u, s);
    if ws != [] {
      SeparatorWordsShape(u, s);
      StringLib.NoDotInWords(u, ws);
      JoinShape(ws, '.');
    }
  }

  lemma DotCaseOfString(u: Table, s: string)
    ensures ToDotCase(u, Str(s)) == Ok(StringLib.DotCase(u, s))
  {
    SameAsStringLib(u, Str(s));
  }
}
