/** The cases of tests/string.test.js as lemmas about the lib/string.js model.

    The literal examples hold for every character table that satisfies `Wf` (`éxemple` on the Latin-1 table). Each
    input is written as the gaps between its words and the words themselves (`CaseWords.Spell`); the facts about the
    pieces are checked one lemma at a time, and `SeparatorWordsSpelled` or `RunWordsSpelled` turns them into the
    word list. */
module StringTests {
  import opened Unicode
  import opened Js
  import opened JsString
  import opened CaseWords
  import opened StringLib

  // ---------------------------------------------------------------------------------------------------------
  // The argument checks (tests/string.test.js:5-7, 27, 37-38)

  /** tests/string.test.js:5-7 */
  lemma CamelRejects(u: Table)
    ensures ToCamelCase(u, Other("number", true, "123")) == Err(NotAString("number"))
    ensures ToCamelCase(u, Null) == Err(NullOrUndefined)
    ensures ToCamelCase(u, Undefined) == Err(NullOrUndefined)
  {
  }

  /** tests/string.test.js:27 */
  lemma DotRejects(u: Table)
    ensures ToDotCase(u, Other("number", true, "123")) == Err(NotAString("number"))
  {
  }

  /** tests/string.test.js:37-38 */
  lemma KebabRejects(u: Table)
    ensures ToKebabCase(u, Other("number", true, "123")) == Err(NotAString("number"))
    ensures ToKebabCase(u, Str("   ")) == Err(EmptyString)
  {
    TrimEmpty("   ", SpaceChar(u));
  }

  /** tests/string.test.js:23 and 33 */
  lemma EmptyInput(u: Table)
    ensures ToCamelCase(u, Str("")) == Ok("")
  {
  }

  lemma DotEmptyInput(u: Table)
    ensures ToDotCase(u, Str("")) == Ok("")
  {
  }

  // ---------------------------------------------------------------------------------------------------------
  // The conversions

  /** tests/string.test.js:10 */
  lemma CamelLowerHelloWorld(u: Table)
    requires Wf(u)
    ensures ToCamelCase(u, Str("hello world")) == Ok("helloWorld")
  {
    LowerHelloWorldWords(u);
    LowerHelloWorldCamel(u);
    CamelOfWords(u, "hello world", ["hello", "world"], "helloWorld");
  }

  lemma LowerHelloWorldCamel(u: Table)
    ensures CamelJoin(u, ["hello", "world"]) == "helloWorld"
  {
    CamelJoinTwo(u, "hello", "world");
  }

  /** tests/string.test.js:11 */
  lemma CamelHelloWorldTest(u: Table)
    requires Wf(u)
    ensures ToCamelCase(u, Str(" hello__world-test ")) == Ok("helloWorldTest")
  {
    HelloWorldTestWords(u);
    HelloWorldTestCamel(u);
    CamelOfWords(u, " hello__world-test ", ["hello", "world", "test"], "helloWorldTest");
  }

  lemma HelloWorldTestCamel(u: Table)
    ensures CamelJoin(u, ["hello", "world", "test"]) == "helloWorldTest"
  {
    CamelJoinThree(u, "hello", "world", "test");
  }

  /** tests/string.test.js:14 */
  lemma CamelFirstName(u: Table)
    requires Wf(u)
    ensures ToCamelCase(u, Str("first name")) == Ok("firstName")
  {
    FirstNameWords(u);
    FirstNameCamel(u);
    CamelOfWords(u, "first name", ["first", "name"], "firstName");
  }

  lemma FirstNameCamel(u: Table)
    ensures CamelJoin(u, ["first", "name"]) == "firstName"
  {
    CamelJoinTwo(u, "first", "name");
  }

  /** tests/string.test.js:15 */
  lemma CamelUserId(u: Table)
    requires Wf(u)
    ensures ToCamelCase(u, Str("user_id")) == Ok("userId")
  {
    UserIdWords(u);
    UserIdCamel(u);
    CamelOfWords(u, "user_id", ["user", "id"], "userId");
  }

  lemma UserIdCamel(u: Table)
    ensures CamelJoin(u, ["user", "id"]) == "userId"
  {
    CamelJoinTwo(u, "user", "id");
  }

  /** tests/string.test.js:16 */
  lemma CamelScreenName(u: Table)
    requires Wf(u)
    ensures ToCamelCase(u, Str("SCREEN_NAME")) == Ok("screenName")
  {
    ScreenNameWords(u);
    ScreenNameCamel(u);
    CamelOfWords(u, "SCREEN_NAME", ["screen", "name"], "screenName");
  }

  lemma ScreenNameCamel(u: Table)
    ensures CamelJoin(u, ["screen", "name"]) == "screenName"
  {
    CamelJoinTwo(u, "screen", "name");
  }

  /** tests/string.test.js:17 */
  lemma CamelMobileNumber(u: Table)
    requires Wf(u)
    ensures ToCamelCase(u, Str("mobile-number")) == Ok("mobileNumber")
  {
    MobileNumberWords(u);
    MobileNumberCamel(u);
    CamelOfWords(u, "mobile-number", ["mobile", "number"], "mobileNumber");
  }

  lemma MobileNumberCamel(u: Table)
    ensures CamelJoin(u, ["mobile", "number"]) == "mobileNumber"
  {
    CamelJoinTwo(u, "mobile", "number");
  }

  /** tests/string.test.js:20 */
  lemma CamelThisIsAnExample(u: Table)
    requires Wf(u)
    ensures ToCamelCase(u, Str("  This-is_an Example!  ")) == Ok("thisIsAnExample")
  {
    ThisIsAnExampleWords(u);
    ThisIsAnExampleCamel(u);
    CamelOfWords(u, "  This-is_an Example!  ", ["this", "is", "an", "example"], "thisIsAnExample");
  }

  lemma ThisIsAnExampleCamel(u: Table)
    ensures CamelJoin(u, ["this", "is", "an", "example"]) == "thisIsAnExample"
  {
    CamelJoinFour(u, "this", "is", "an", "example");
  }

  /** tests/string.test.js:21 */
  lemma CamelConvertToCamelCase(u: Table)
    requires Wf(u)
    ensures ToCamelCase(u, Str("convert_to-camel CASE")) == Ok("convertToCamelCase")
  {
    ConvertToCamelCaseWords(u);
    ConvertToCamelCaseCamel(u);
    CamelOfWords(u, "convert_to-camel CASE", ["convert", "to", "camel", "case"], "convertToCamelCase");
  }

  lemma ConvertToCamelCaseCamel(u: Table)
    ensures CamelJoin(u, ["convert", "to", "camel", "case"]) == "convertToCamelCase"
  {
    CamelJoinFour(u, "convert", "to", "camel", "case");
  }

  /** tests/string.test.js:22 */
  lemma CamelVersion(u: Table)
    requires Wf(u)
    ensures ToCamelCase(u, Str("version 2.0-beta")) == Ok("version20Beta")
  {
    VersionWords(u);
    VersionCamel(u);
    CamelOfWords(u, "version 2.0-beta", ["version", "20", "beta"], "version20Beta");
  }

  lemma VersionCamel(u: Table)
    ensures CamelJoin(u, ["version", "20", "beta"]) == "version20Beta"
  {
    CamelJoinThree(u, "version", "20", "beta");
  }

  /** tests/string.test.js:24, on the Latin-1 table */
  lemma CamelExemple()
    ensures ToCamelCase(Latin1, Str("éxemple test")) == Ok("éxempleTest")
  {
    Latin1Wf();
    ExempleWords();
    ExempleCamel();
    CamelOfWords(Latin1, "éxemple test", ["éxemple", "test"], "éxempleTest");
  }

  lemma ExempleCamel()
    ensures CamelJoin(Latin1, ["éxemple", "test"]) == "éxempleTest"
  {
    CamelJoinTwo(Latin1, "éxemple", "test");
  }

  /** tests/string.test.js:28 */
  lemma DotHelloWorld(u: Table)
    requires Wf(u)
    ensures ToDotCase(u, Str("Hello World")) == Ok("hello.world")
  {
    HelloWorldWords(u);
    HelloWorldDotted();
    DotOfWords(u, "Hello World", ["hello", "world"], "hello.world");
  }

  lemma HelloWorldDotted()
    ensures Join(["hello", "world"], ".") == "hello.world"
  {
  }

  /** tests/string.test.js:29 */
  lemma DotHelloWorldTest(u: Table)
    requires Wf(u)
    ensures ToDotCase(u, Str(" hello__world-test ")) == Ok("hello.world.test")
  {
    HelloWorldTestWords(u);
    HelloWorldTestDotted();
    DotOfWords(u, " hello__world-test ", ["hello", "world", "test"], "hello.world.test");
  }

  lemma HelloWorldTestDotted()
    ensures Join(["hello", "world", "test"], ".") == "hello.world.test"
  {
  }

  /** tests/string.test.js:30 */
  lemma DotUserId(u: Table)
    requires Wf(u)
    ensures ToDotCase(u, Str("user_id")) == Ok("user.id")
  {
    UserIdWords(u);
    UserIdDotted();
    DotOfWords(u, "user_id", ["user", "id"], "user.id");
  }

  lemma UserIdDotted()
    ensures Join(["user", "id"], ".") == "user.id"
  {
  }

  /** tests/string.test.js:31 */
  lemma DotScreenName(u: Table)
    requires Wf(u)
    ensures ToDotCase(u, Str("SCREEN_NAME")) == Ok("screen.name")
  {
    ScreenNameWords(u);
    ScreenNameDotted();
    DotOfWords(u, "SCREEN_NAME", ["screen", "name"], "screen.name");
  }

  lemma ScreenNameDotted()
    ensures Join(["screen", "name"], ".") == "screen.name"
  {
  }

  /** tests/string.test.js:32 */
  lemma DotVersion(u: Table)
    requires Wf(u)
    ensures ToDotCase(u, Str("version 2.0-beta")) == Ok("version.20.beta")
  {
    VersionWords(u);
    VersionDotted();
    DotOfWords(u, "version 2.0-beta", ["version", "20", "beta"], "version.20.beta");
  }

  lemma VersionDotted()
    ensures Join(["version", "20", "beta"], ".") == "version.20.beta"
  {
  }

  /** tests/string.test.js:34 */
  lemma DotThisIsAnExample(u: Table)
    requires Wf(u)
    ensures ToDotCase(u, Str("  This-is_an Example!  ")) == Ok("this.is.an.example")
  {
    ThisIsAnExampleWords(u);
    ThisIsAnExampleDotted();
    DotOfWords(u, "  This-is_an Example!  ", ["this", "is", "an", "example"], "this.is.an.example");
  }

  lemma ThisIsAnExampleDotted()
    ensures Join(["this", "is", "an", "example"], ".") == "this.is.an.example"
  {
  }

  /** tests/string.test.js:39 */
  lemma KebabHelloWorld(u: Table)
    requires Wf(u)
    ensures ToKebabCase(u, Str("Hello World")) == Ok("hello-world")
  {
    HelloWorldRuns(u);
    HelloWorldHyphenated();
    assert !SpaceChar(u)("Hello World"[0]);
    KebabOfRuns(u, "Hello World", ["hello", "world"], "hello-world");
  }

  lemma HelloWorldHyphenated()
    ensures Join(["hello", "world"], "-") == "hello-world"
  {
  }

  /** tests/string.test.js:40 */
  lemma KebabHelloWorldTest(u: Table)
    requires Wf(u)
    ensures ToKebabCase(u, Str(" hello__world-test ")) == Ok("hello-world-test")
  {
    HelloWorldTestRuns(u);
    HelloWorldTestHyphenated();
    assert !SpaceChar(u)(" hello__world-test "[1]);
    KebabOfRuns(u, " hello__world-test ", ["hello", "world", "test"], "hello-world-test");
  }

  lemma HelloWorldTestHyphenated()
    ensures Join(["hello", "world", "test"], "-") == "hello-world-test"
  {
  }

  /** tests/string.test.js:41 */
  lemma KebabUpperUserId(u: Table)
    requires Wf(u)
    ensures ToKebabCase(u, Str("USER_ID")) == Ok("user-id")
  {
    UpperUserIdRuns(u);
    UpperUserIdHyphenated();
    assert !SpaceChar(u)("USER_ID"[0]);
    KebabOfRuns(u, "USER_ID", ["user", "id"], "user-id");
  }

  lemma UpperUserIdHyphenated()
    ensures Join(["user", "id"], "-") == "user-id"
  {
  }

  /** tests/string.test.js:42 */
  lemma KebabVersion(u: Table)
    requires Wf(u)
    ensures ToKebabCase(u, Str("version 2.0-beta")) == Ok("version-2-0-beta")
  {
    VersionRuns(u);
    VersionHyphenated();
    assert !SpaceChar(u)("version 2.0-beta"[0]);
    KebabOfRuns(u, "version 2.0-beta", ["version", "2", "0", "beta"], "version-2-0-beta");
  }

  lemma VersionHyphenated()
    ensures Join(["version", "2", "0", "beta"], "-") == "version-2-0-beta"
  {
  }

  /** tests/string.test.js:43 */
  lemma KebabThisIsAnExample(u: Table)
    requires Wf(u)
    ensures ToKebabCase(u, Str("  This-is_an Example!  ")) == Ok("this-is-an-example")
  {
    ThisIsAnExampleRuns(u);
    ThisIsAnExampleHyphenated();
    assert !SpaceChar(u)("  This-is_an Example!  "[2]);
    KebabOfRuns(u, "  This-is_an Example!  ", ["this", "is", "an", "example"], "this-is-an-example");
  }

  lemma ThisIsAnExampleHyphenated()
    ensures Join(["this", "is", "an", "example"], "-") == "this-is-an-example"
  {
  }

  // ---------------------------------------------------------------------------------------------------------
  // The words of the inputs

  /** `.` is deleted, not a separator: it joins `2` and `0` into one word. */
  lemma VersionWords(u: Table)
    requires Wf(u)
    ensures SeparatorWords(u, "version 2.0-beta") == ["version", "20", "beta"]
  {
    assert "version 2.0-beta" == "version 2" + ['.'] + "0-beta";
    assert "version 20-beta" == "version 2" + "0-beta";
    SeparatorWordsDeleted(u, "version 2", '.', "0-beta");
    VersionUndottedWords(u);
  }

  // "hello world"

  lemma LowerHelloWorldGaps(u: Table)
    ensures NoneOf("", WordChar(u)) && InnerSeparators(u, ["", " ", ""])
  {
  }

  lemma LowerHelloWorldLower(u: Table)
    ensures LowerEach(u, ["hello", "world"], ["hello", "world"])
  {
  }

  lemma LowerHelloWorldSpelled()
    ensures Spell(["", " ", ""], ["hello", "world"]) == "hello world"
  {
    SpellTwo("", " ", "", "hello", "world");
    LowerHelloWorldConcat();
  }

  lemma LowerHelloWorldConcat()
    ensures "" + ("hello" + (" " + ("world" + ""))) == "hello world"
  {
  }

  /** The words of "hello world" after separator normalisation. */
  lemma LowerHelloWorldWords(u: Table)
    requires Wf(u)
    ensures SeparatorWords(u, "hello world") == ["hello", "world"]
  {
    LowerHelloWorldGaps(u);
    LowerHelloWorldLower(u);
    LowerHelloWorldSpelled();
    SeparatorWordsSpelled(u, ["", " ", ""], ["hello", "world"], ["hello", "world"]);
  }

  // "Hello World"

  lemma HelloWorldGaps(u: Table)
    ensures NoneOf("", WordChar(u)) && InnerSeparators(u, ["", " ", ""]) && InnerBlanks(u, ["", " ", ""])
  {
  }

  lemma HelloWorldLower(u: Table)
    ensures LowerEach(u, ["Hello", "World"], ["hello", "world"])
  {
  }

  lemma HelloWorldSpelled()
    ensures Spell(["", " ", ""], ["Hello", "World"]) == "Hello World"
  {
    SpellTwo("", " ", "", "Hello", "World");
    HelloWorldConcat();
  }

  lemma HelloWorldConcat()
    ensures "" + ("Hello" + (" " + ("World" + ""))) == "Hello World"
  {
  }

  /** The words of "Hello World" after separator normalisation. */
  lemma HelloWorldWords(u: Table)
    requires Wf(u)
    ensures SeparatorWords(u, "Hello World") == ["hello", "world"]
  {
    HelloWorldGaps(u);
    HelloWorldLower(u);
    HelloWorldSpelled();
    SeparatorWordsSpelled(u, ["", " ", ""], ["Hello", "World"], ["hello", "world"]);
  }

  /** The maximal runs of letters and numbers of "Hello World", lower-cased. */
  lemma HelloWorldRuns(u: Table)
    ensures RunWords(u, "Hello World") == ["hello", "world"]
  {
    HelloWorldGaps(u);
    HelloWorldLower(u);
    HelloWorldSpelled();
    RunWordsSpelled(u, ["", " ", ""], ["Hello", "World"], ["hello", "world"]);
  }

  // " hello__world-test "

  lemma HelloWorldTestGaps(u: Table)
    ensures NoneOf(" ", WordChar(u)) && InnerSeparators(u, [" ", "__", "-", " "]) && InnerBlanks(u, [" ", "__", "-", " "])
  {
  }

  lemma HelloWorldTestLower(u: Table)
    ensures LowerEach(u, ["hello", "world", "test"], ["hello", "world", "test"])
  {
  }

  lemma HelloWorldTestSpelled()
    ensures Spell([" ", "__", "-", " "], ["hello", "world", "test"]) == " hello__world-test "
  {
    SpellThree(" ", "__", "-", " ", "hello", "world", "test");
    HelloWorldTestConcat();
  }

  lemma HelloWorldTestConcat()
    ensures " " + ("hello" + ("__" + ("world" + ("-" + ("test" + " "))))) == " hello__world-test "
  {
  }

  /** The words of " hello__world-test " after separator normalisation. */
  lemma HelloWorldTestWords(u: Table)
    requires Wf(u)
    ensures SeparatorWords(u, " hello__world-test ") == ["hello", "world", "test"]
  {
    HelloWorldTestGaps(u);
    HelloWorldTestLower(u);
    HelloWorldTestSpelled();
    SeparatorWordsSpelled(u, [" ", "__", "-", " "], ["hello", "world", "test"], ["hello", "world", "test"]);
  }

  /** The maximal runs of letters and numbers of " hello__world-test ", lower-cased. */
  lemma HelloWorldTestRuns(u: Table)
    ensures RunWords(u, " hello__world-test ") == ["hello", "world", "test"]
  {
    HelloWorldTestGaps(u);
    HelloWorldTestLower(u);
    HelloWorldTestSpelled();
    RunWordsSpelled(u, [" ", "__", "-", " "], ["hello", "world", "test"], ["hello", "world", "test"]);
  }

  // "first name"

  lemma FirstNameGaps(u: Table)
    ensures NoneOf("", WordChar(u)) && InnerSeparators(u, ["", " ", ""])
  {
  }

  lemma FirstNameLower(u: Table)
    ensures LowerEach(u, ["first", "name"], ["first", "name"])
  {
  }

  lemma FirstNameSpelled()
    ensures Spell(["", " ", ""], ["first", "name"]) == "first name"
  {
    SpellTwo("", " ", "", "first", "name");
    FirstNameConcat();
  }

  lemma FirstNameConcat()
    ensures "" + ("first" + (" " + ("name" + ""))) == "first name"
  {
  }

  /** The words of "first name" after separator normalisation. */
  lemma FirstNameWords(u: Table)
    requires Wf(u)
    ensures SeparatorWords(u, "first name") == ["first", "name"]
  {
    FirstNameGaps(u);
    FirstNameLower(u);
    FirstNameSpelled();
    SeparatorWordsSpelled(u, ["", " ", ""], ["first", "name"], ["first", "name"]);
  }

  // "user_id"

  lemma UserIdGaps(u: Table)
    ensures NoneOf("", WordChar(u)) && InnerSeparators(u, ["", "_", ""])
  {
  }

  lemma UserIdLower(u: Table)
    ensures LowerEach(u, ["user", "id"], ["user", "id"])
  {
  }

  lemma UserIdSpelled()
    ensures Spell(["", "_", ""], ["user", "id"]) == "user_id"
  {
    SpellTwo("", "_", "", "user", "id");
    UserIdConcat();
  }

  lemma UserIdConcat()
    ensures "" + ("user" + ("_" + ("id" + ""))) == "user_id"
  {
  }

  /** The words of "user_id" after separator normalisation. */
  lemma UserIdWords(u: Table)
    requires Wf(u)
    ensures SeparatorWords(u, "user_id") == ["user", "id"]
  {
    UserIdGaps(u);
    UserIdLower(u);
    UserIdSpelled();
    SeparatorWordsSpelled(u, ["", "_", ""], ["user", "id"], ["user", "id"]);
  }

  // "SCREEN_NAME"

  lemma ScreenNameGaps(u: Table)
    ensures NoneOf("", WordChar(u)) && InnerSeparators(u, ["", "_", ""])
  {
  }

  lemma ScreenNameLower(u: Table)
    ensures LowerEach(u, ["SCREEN", "NAME"], ["screen", "name"])
  {
  }

  lemma ScreenNameSpelled()
    ensures Spell(["", "_", ""], ["SCREEN", "NAME"]) == "SCREEN_NAME"
  {
    SpellTwo("", "_", "", "SCREEN", "NAME");
    ScreenNameConcat();
  }

  lemma ScreenNameConcat()
    ensures "" + ("SCREEN" + ("_" + ("NAME" + ""))) == "SCREEN_NAME"
  {
  }

  /** The words of "SCREEN_NAME" after separator normalisation. */
  lemma ScreenNameWords(u: Table)
    requires Wf(u)
    ensures SeparatorWords(u, "SCREEN_NAME") == ["screen", "name"]
  {
    ScreenNameGaps(u);
    ScreenNameLower(u);
    ScreenNameSpelled();
    SeparatorWordsSpelled(u, ["", "_", ""], ["SCREEN", "NAME"], ["screen", "name"]);
  }

  // "mobile-number"

  lemma MobileNumberGaps(u: Table)
    ensures NoneOf("", WordChar(u)) && InnerSeparators(u, ["", "-", ""])
  {
  }

  lemma MobileNumberLower(u: Table)
    ensures LowerEach(u, ["mobile", "number"], ["mobile", "number"])
  {
  }

  lemma MobileNumberSpelled()
    ensures Spell(["", "-", ""], ["mobile", "number"]) == "mobile-number"
  {
    SpellTwo("", "-", "", "mobile", "number");
    MobileNumberConcat();
  }

  lemma MobileNumberConcat()
    ensures "" + ("mobile" + ("-" + ("number" + ""))) == "mobile-number"
  {
  }

  /** The words of "mobile-number" after separator normalisation. */
  lemma MobileNumberWords(u: Table)
    requires Wf(u)
    ensures SeparatorWords(u, "mobile-number") == ["mobile", "number"]
  {
    MobileNumberGaps(u);
    MobileNumberLower(u);
    MobileNumberSpelled();
    SeparatorWordsSpelled(u, ["", "-", ""], ["mobile", "number"], ["mobile", "number"]);
  }

  // "  This-is_an Example!  "

  lemma ThisIsAnExampleGaps(u: Table)
    ensures NoneOf("  ", WordChar(u)) && NoneOf("!  ", WordChar(u)) && InnerSeparators(u, ["  ", "-", "_", " ", "!  "]) && InnerBlanks(u, ["  ", "-", "_", " ", "!  "])
  {
  }

  lemma ThisIsAnExampleLower(u: Table)
    ensures LowerEach(u, ["This", "is", "an", "Example"], ["this", "is", "an", "example"])
  {
  }

  lemma ThisIsAnExampleSpelled()
    ensures Spell(["  ", "-", "_", " ", "!  "], ["This", "is", "an", "Example"]) == "  This-is_an Example!  "
  {
    SpellFour("  ", "-", "_", " ", "!  ", "This", "is", "an", "Example");
    ThisIsAnExampleConcat();
  }

  lemma ThisIsAnExampleConcat()
    ensures "  " + ("This" + ("-" + ("is" + ("_" + ("an" + (" " + ("Example" + "!  "))))))) == "  This-is_an Example!  "
  {
  }

  /** The words of "  This-is_an Example!  " after separator normalisation. */
  lemma ThisIsAnExampleWords(u: Table)
    requires Wf(u)
    ensures SeparatorWords(u, "  This-is_an Example!  ") == ["this", "is", "an", "example"]
  {
    ThisIsAnExampleGaps(u);
    ThisIsAnExampleLower(u);
    ThisIsAnExampleSpelled();
    SeparatorWordsSpelled(u, ["  ", "-", "_", " ", "!  "], ["This", "is", "an", "Example"], ["this", "is", "an", "example"]);
  }

  /** The maximal runs of letters and numbers of "  This-is_an Example!  ", lower-cased. */
  lemma ThisIsAnExampleRuns(u: Table)
    ensures RunWords(u, "  This-is_an Example!  ") == ["this", "is", "an", "example"]
  {
    ThisIsAnExampleGaps(u);
    ThisIsAnExampleLower(u);
    ThisIsAnExampleSpelled();
    RunWordsSpelled(u, ["  ", "-", "_", " ", "!  "], ["This", "is", "an", "Example"], ["this", "is", "an", "example"]);
  }

  // "convert_to-camel CASE"

  lemma ConvertToCamelCaseGaps(u: Table)
    ensures NoneOf("", WordChar(u)) && InnerSeparators(u, ["", "_", "-", " ", ""])
  {
  }

  lemma ConvertToCamelCaseLower(u: Table)
    ensures LowerEach(u, ["convert", "to", "camel", "CASE"], ["convert", "to", "camel", "case"])
  {
  }

  lemma ConvertToCamelCaseSpelled()
    ensures Spell(["", "_", "-", " ", ""], ["convert", "to", "camel", "CASE"]) == "convert_to-camel CASE"
  {
    SpellFour("", "_", "-", " ", "", "convert", "to", "camel", "CASE");
    ConvertToCamelCaseConcat();
  }

  lemma ConvertToCamelCaseConcat()
    ensures "" + ("convert" + ("_" + ("to" + ("-" + ("camel" + (" " + ("CASE" + ""))))))) == "convert_to-camel CASE"
  {
  }

  /** The words of "convert_to-camel CASE" after separator normalisation. */
  lemma ConvertToCamelCaseWords(u: Table)
    requires Wf(u)
    ensures SeparatorWords(u, "convert_to-camel CASE") == ["convert", "to", "camel", "case"]
  {
    ConvertToCamelCaseGaps(u);
    ConvertToCamelCaseLower(u);
    ConvertToCamelCaseSpelled();
    SeparatorWordsSpelled(u, ["", "_", "-", " ", ""], ["convert", "to", "camel", "CASE"], ["convert", "to", "camel", "case"]);
  }

  // "version 20-beta"

  lemma VersionUndottedGaps(u: Table)
    ensures NoneOf("", WordChar(u)) && InnerSeparators(u, ["", " ", "-", ""])
  {
  }

  lemma VersionUndottedLower(u: Table)
    ensures LowerEach(u, ["version", "20", "beta"], ["version", "20", "beta"])
  {
  }

  lemma VersionUndottedSpelled()
    ensures Spell(["", " ", "-", ""], ["version", "20", "beta"]) == "version 20-beta"
  {
    SpellThree("", " ", "-", "", "version", "20", "beta");
    VersionUndottedConcat();
  }

  lemma VersionUndottedConcat()
    ensures "" + ("version" + (" " + ("20" + ("-" + ("beta" + ""))))) == "version 20-beta"
  {
  }

  /** The words of "version 20-beta" after separator normalisation. */
  lemma VersionUndottedWords(u: Table)
    requires Wf(u)
    ensures SeparatorWords(u, "version 20-beta") == ["version", "20", "beta"]
  {
    VersionUndottedGaps(u);
    VersionUndottedLower(u);
    VersionUndottedSpelled();
    SeparatorWordsSpelled(u, ["", " ", "-", ""], ["version", "20", "beta"], ["version", "20", "beta"]);
  }

  // "version 2.0-beta"

  lemma VersionGaps(u: Table)
    ensures NoneOf("", WordChar(u)) && InnerBlanks(u, ["", " ", ".", "-", ""])
  {
  }

  lemma VersionLower(u: Table)
    ensures LowerEach(u, ["version", "2", "0", "beta"], ["version", "2", "0", "beta"])
  {
  }

  lemma VersionSpelled()
    ensures Spell(["", " ", ".", "-", ""], ["version", "2", "0", "beta"]) == "version 2.0-beta"
  {
    SpellFour("", " ", ".", "-", "", "version", "2", "0", "beta");
    VersionConcat();
  }

  lemma VersionConcat()
    ensures "" + ("version" + (" " + ("2" + ("." + ("0" + ("-" + ("beta" + ""))))))) == "version 2.0-beta"
  {
  }

  /** The maximal runs of letters and numbers of "version 2.0-beta", lower-cased. */
  lemma VersionRuns(u: Table)
    ensures RunWords(u, "version 2.0-beta") == ["version", "2", "0", "beta"]
  {
    VersionGaps(u);
    VersionLower(u);
    VersionSpelled();
    RunWordsSpelled(u, ["", " ", ".", "-", ""], ["version", "2", "0", "beta"], ["version", "2", "0", "beta"]);
  }

  // "USER_ID"

  lemma UpperUserIdGaps(u: Table)
    ensures NoneOf("", WordChar(u)) && InnerBlanks(u, ["", "_", ""])
  {
  }

  lemma UpperUserIdLower(u: Table)
    ensures LowerEach(u, ["USER", "ID"], ["user", "id"])
  {
  }

  lemma UpperUserIdSpelled()
    ensures Spell(["", "_", ""], ["USER", "ID"]) == "USER_ID"
  {
    SpellTwo("", "_", "", "USER", "ID");
    UpperUserIdConcat();
  }

  lemma UpperUserIdConcat()
    ensures "" + ("USER" + ("_" + ("ID" + ""))) == "USER_ID"
  {
  }

  /** The maximal runs of letters and numbers of "USER_ID", lower-cased. */
  lemma UpperUserIdRuns(u: Table)
    ensures RunWords(u, "USER_ID") == ["user", "id"]
  {
    UpperUserIdGaps(u);
    UpperUserIdLower(u);
    UpperUserIdSpelled();
    RunWordsSpelled(u, ["", "_", ""], ["USER", "ID"], ["user", "id"]);
  }

  // "éxemple test"

  lemma ExempleGaps()
    ensures NoneOf("", WordChar(Latin1)) && InnerSeparators(Latin1, ["", " ", ""]) && InnerBlanks(Latin1, ["", " ", ""])
  {
  }

  lemma ExempleLower()
    ensures LowerEach(Latin1, ["éxemple", "test"], ["éxemple", "test"])
  {
  }

  lemma ExempleSpelled()
    ensures Spell(["", " ", ""], ["éxemple", "test"]) == "éxemple test"
  {
    SpellTwo("", " ", "", "éxemple", "test");
    ExempleConcat();
  }

  lemma ExempleConcat()
    ensures "" + ("éxemple" + (" " + ("test" + ""))) == "éxemple test"
  {
  }

  /** The words of "éxemple test" after separator normalisation. */
  lemma ExempleWords()
    ensures SeparatorWords(Latin1, "éxemple test") == ["éxemple", "test"]
  {
    Latin1Wf();
    ExempleGaps();
    ExempleLower();
    ExempleSpelled();
    SeparatorWordsSpelled(Latin1, ["", " ", ""], ["éxemple", "test"], ["éxemple", "test"]);
  }

  /** The maximal runs of letters and numbers of "éxemple test", lower-cased. */
  lemma ExempleRuns()
    ensures RunWords(Latin1, "éxemple test") == ["éxemple", "test"]
  {
    ExempleGaps();
    ExempleLower();
    ExempleSpelled();
    RunWordsSpelled(Latin1, ["", " ", ""], ["éxemple", "test"], ["éxemple", "test"]);
  }
}
