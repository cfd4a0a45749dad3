/** lib/event.js: `toSnakeCase`.

    Lower-case, every run of white space to `_`, every run of characters outside ASCII `[A-Za-z0-9]` deleted (the
    class `[\W_]` of a regular expression without the `u` flag), every run of `_` to one `_`. There is no argument
    check and no trimming. */
module Event {
  import opened Unicode
  import opened JsString

  /** `toSnakeCase` (lib/event.js:1-7): only ASCII letters and digits are left, so no `_` and no white space. */
  function ToSnakeCase(u: Table, text: string): (r: string)
    ensures forall i :: 0 <= i < |r| ==> IsAsciiAlnum(r[i])
  {
    var lowered := MapChars(text, LowerChar(u));
    var underscored := ReplaceRuns(lowered, SpaceChar(u), "_");
    var cleaned := Delete(underscored, NonAsciiAlnum());
    assert NoneOf(cleaned, NonAsciiAlnum());
    ReplaceRuns(cleaned, IsChar('_'), "_")
  }

  /** ASCII letters and digits are all that is left of the lower-cased string: the `_` that line 4 puts in is
      deleted again by line 5, and line 6 has nothing to do. */
  lemma SnakeCaseIsDelete(u: Table, text: string)
    ensures ToSnakeCase(u, text) == Delete(MapChars(text, LowerChar(u)), NonAsciiAlnum())
  {
    var lowered := MapChars(text, LowerChar(u));
    ReplaceRunsDelete(lowered, SpaceChar(u), "_", NonAsciiAlnum());
  }

  /** The step at lib/event.js:6 leaves what line 5 made unchanged: there is no `_` left to collapse. */
  lemma UnderscoreStepNoOp(u: Table, text: string)
    ensures var cleaned := Delete(ReplaceRuns(MapChars(text, LowerChar(u)), SpaceChar(u), "_"), NonAsciiAlnum());
      ReplaceRuns(cleaned, IsChar('_'), "_") == cleaned
  {
    var cleaned := Delete(ReplaceRuns(MapChars(text, LowerChar(u)), SpaceChar(u), "_"), NonAsciiAlnum());
    assert NoneOf(cleaned, IsChar('_')) by {
      assert NoneOf(cleaned, NonAsciiAlnum());
    }
  }

  /** Every character of the result is an ASCII lower-case letter or digit, so it holds no `_` and no white space,
      and it is no longer than the argument. */
  lemma SnakeCaseChars(u: Table, text: string)
    requires Wf(u)
    ensures var r := ToSnakeCase(u, text);
      && |r| <= |text|
      && (forall i :: 0 <= i < |r| ==> IsAsciiLower(r[i]) || IsAsciiDigit(r[i]))
      && NoneOf(r, IsChar('_'))
      && NoneOf(r, SpaceChar(u))
  {
    var lowered := MapChars(text, LowerChar(u));
    SnakeCaseIsDelete(u, text);
    LoweredIsNotUpper(u, lowered, text);
    DeleteKeeps(lowered, NonAsciiAlnum(), c => !IsAsciiUpper(c));
  }

  /** Under `Wf`, lower-casing never gives an ASCII capital: it would not be its own lower case. */
  lemma LoweredIsNotUpper(u: Table, lowered: string, text: string)
    requires Wf(u) && lowered == MapChars(text, LowerChar(u))
    ensures All(lowered, c => !IsAsciiUpper(c))
  {
    forall i | 0 <= i < |lowered|
      ensures !IsAsciiUpper(lowered[i])
    {
      assert ToLower(u, ToLower(u, text[i])) == ToLower(u, text[i]);
    }
  }

  /** Converting twice is converting once. */
  lemma Idempotent(u: Table, text: string)
    requires Wf(u)
    ensures ToSnakeCase(u, ToSnakeCase(u, text)) == ToSnakeCase(u, text)
  {
    var r := ToSnakeCase(u, text);
    SnakeCaseChars(u, text);
    SnakeCaseIsDelete(u, r);
    assert MapChars(r, LowerChar(u)) == r;
    assert NoneOf(r, NonAsciiAlnum());
  }

  /** `""` gives `""`, and nothing is trimmed: blank text gives `""` as well, without an error. */
  lemma EmptyAndBlank(u: Table, text: string)
    requires Wf(u)
    requires All(text, SpaceChar(u))
    ensures ToSnakeCase(u, text) == []
  {
    SnakeCaseIsDelete(u, text);
    var lowered := MapChars(text, LowerChar(u));
    forall i | 0 <= i < |lowered|
      ensures NonAsciiAlnum()(lowered[i])
    {
      assert SpaceChar(u)(text[i]);
      assert !IsWordChar(u, ToLower(u, text[i]));
    }
  }

  /** Letters outside ASCII are deleted: on the Latin-1 table `éxemple test` gives `xempletest`. */
  lemma Exemple()
    ensures ToSnakeCase(Latin1, "éxemple test") == "xempletest"
  {
    SnakeCaseIsDelete(Latin1, "éxemple test");
    ExempleLowered();
    ExempleCleaned(MapChars("éxemple test", LowerChar(Latin1)));
  }

  lemma ExempleLowered()
    ensures MapChars("éxemple test", LowerChar(Latin1)) == "éxemple test"
  {
    LowerFixed(Latin1, "éxemple test");
  }

  lemma ExempleCleaned(s: string)
    requires s == "éxemple test"
    ensures Delete(s, NonAsciiAlnum()) == "xempletest"
  {
    assert s == "é" + ("xemple" + (" " + "test"));
    DeleteGap("é", "xemple", " ", "test", NonAsciiAlnum());
  }

  /** A space gives no `_`: `hello world` gives `helloworld`. */
  lemma HelloWorld(u: Table)
    ensures ToSnakeCase(u, "hello world") == "helloworld"
  {
    SnakeCaseIsDelete(u, "hello world");
    HelloWorldLowered(u);
    HelloWorldCleaned(MapChars("hello world", LowerChar(u)));
  }

  lemma HelloWorldLowered(u: Table)
    ensures MapChars("hello world", LowerChar(u)) == "hello world"
  {
    LowerFixed(u, "hello world");
  }

  lemma HelloWorldCleaned(s: string)
    requires s == "hello world"
    ensures Delete(s, NonAsciiAlnum()) == "helloworld"
  {
    assert s == [] + ("hello" + (" " + "world"));
    DeleteGap([], "hello", " ", "world", NonAsciiAlnum());
  }

  /** Deleting from text made of deleted and kept stretches. */
  lemma DeleteGap(g0: string, a: string, g1: string, b: string, p: char -> bool)
    requires All(g0, p) && NoneOf(a, p) && All(g1, p) && NoneOf(b, p)
    ensures Delete(g0 + (a + (g1 + b)), p) == a + b
  {
    DeleteAppend(g0, a + (g1 + b), p);
    DeleteAppend(a, g1 + b, p);
    DeleteAppend(g1, b, p);
  }

  lemma LowerFixed(u: Table, s: string)
    requires forall i :: 0 <= i < |s| ==> ToLower(u, s[i]) == s[i]
    ensures MapChars(s, LowerChar(u)) == s
  {
  }

  // ---------------------------------------------------------------------------------------------------------
  // What the comments describe

  /** lib/event.js:4-6 as its comments describe it: white space becomes `_`, and "non-word characters", `\W`
      without `_`, are removed, so the `_` stay and line 6 collapses them: only ASCII letters, digits and `_` are
      left, and never two `_` side by side. */
  function ToSnakeCaseIntended(u: Table, text: string): (r: string)
    ensures forall i :: 0 <= i < |r| ==> IsAsciiWordChar(r[i])
    ensures NoAdjacent(r, IsChar('_'))
  {
    var lowered := MapChars(text, LowerChar(u));
    var underscored := ReplaceRuns(lowered, SpaceChar(u), "_");
    var cleaned := Delete(underscored, NonAsciiWordChar());
    var q := c => IsAsciiWordChar(c);
    assert NoneOf(cleaned, NonAsciiWordChar());
    assert All(cleaned, q);
    ReplaceRunsKeeps(cleaned, IsChar('_'), "_", q);
    ReplaceRunsSingle(cleaned, IsChar('_'), '_');
    ReplaceRuns(cleaned, IsChar('_'), "_")
  }

  /** The intended result holds only ASCII lower-case letters, digits and `_`, and never two `_` side by side. */
  lemma IntendedShape(u: Table, text: string)
    requires Wf(u)
    ensures var r := ToSnakeCaseIntended(u, text);
      && (forall i :: 0 <= i < |r| ==> IsAsciiLower(r[i]) || IsAsciiDigit(r[i]) || r[i] == '_')
      && NoAdjacent(r, IsChar('_'))
  {
    var lowered := MapChars(text, LowerChar(u));
    var underscored := ReplaceRuns(lowered, SpaceChar(u), "_");
    var cleaned := Delete(underscored, NonAsciiWordChar());
    var q := c => IsAsciiLower(c) || IsAsciiDigit(c) || c == '_';
    LoweredIsNotUpper(u, lowered, text);
    ReplaceRunsKeeps(lowered, SpaceChar(u), "_", c => !IsAsciiUpper(c));
    DeleteKeeps(underscored, NonAsciiWordChar(), c => !IsAsciiUpper(c));
    assert All(cleaned, q) by {
      assert NoneOf(cleaned, NonAsciiWordChar());
    }
    ReplaceRunsKeeps(cleaned, IsChar('_'), "_", q);
    ReplaceRunsSingle(cleaned, IsChar('_'), '_');
  }

  /** The code as written gives the intended result with its `_` taken out. */
  lemma IntendedWithoutUnderscores(u: Table, text: string)
    ensures Delete(ToSnakeCaseIntended(u, text), IsChar('_')) == ToSnakeCase(u, text)
  {
    var lowered := MapChars(text, LowerChar(u));
    var underscored := ReplaceRuns(lowered, SpaceChar(u), "_");
    var cleaned := Delete(underscored, NonAsciiWordChar());
    ReplaceRunsDelete(cleaned, IsChar('_'), "_", IsChar('_'));
    assert NoneOf(cleaned, NonAsciiWordChar());
    DeleteAgree(cleaned, IsChar('_'), NonAsciiAlnum());
    DeleteDelete(underscored, NonAsciiWordChar(), NonAsciiAlnum());
    UnderscoreStepNoOp(u, text);
  }

  /** `hello world` gives `hello_world` as intended. */
  lemma IntendedHelloWorld(u: Table)
    ensures ToSnakeCaseIntended(u, "hello world") == "hello_world"
  {
    HelloWorldLowered(u);
    HelloWorldPieces();
    IntendedTwoWords(u, "hello world", "hello", ' ', "world", "hello_world");
  }

  lemma HelloWorldPieces()
    ensures "hello world" == "hello" + [' '] + "world" && "hello" + "_" + "world" == "hello_world"
    ensures All("hello", c => IsAsciiAlnum(c)) && All("world", c => IsAsciiAlnum(c))
  {
  }

  /** Two words of ASCII letters and digits with one white-space character between them are joined by `_`. */
  lemma IntendedTwoWords(u: Table, text: string, a: string, c: char, b: string, r: string)
    requires MapChars(text, LowerChar(u)) == a + [c] + b && IsSpace(u, c)
    requires All(a, c => IsAsciiAlnum(c)) && All(b, c => IsAsciiAlnum(c)) && a + "_" + b == r
    ensures ToSnakeCaseIntended(u, text) == r
  {
    ReplaceRunsOne(a, c, b, SpaceChar(u), '_');
    var x := a + "_" + b;
    assert NoneOf(x, NonAsciiWordChar());
    ReplaceRunsOne(a, '_', b, IsChar('_'), '_');
  }
}
