# String case conversions

A Dafny model of the repository's string case conversions, with the properties they keep proved about them.

- **lib/string.js** has three functions:
  - `toCamelCase` and `toDotCase` find words by *separator normalisation*: runs of `-`, `_` and white space split words; any other character that is not a letter or number is deleted without splitting.
  - `toKebabCase` lower-cases the trimmed string, turns every run of non-letters/non-numbers into `-`, and trims `-` off both ends.
  - All three throw a `TypeError` for `null`/`undefined` and then for non-strings. `toKebabCase` also throws for a blank string.
- **refined_prompt.js** (`toCamelCase`, `toDotCase`) and **chain_prompt.js** (`toKebabCase`) repeat those functions.
- **basic_prompt.js** and **few_shot_prompt.js** have a second `toCamelCase`. It finds words by *maximal-run extraction*: every maximal run of letters and numbers is a word. It returns `""` for a falsy argument and has no argument check: it throws only when the `String(text)` conversion itself throws.
- **lib/event.js** has `toSnakeCase`: lower-case, then three regular-expression replacements.

## How the model is built

- **Arguments** are a `Js.Value`: `Null`, `Undefined`, `Str(s)`, or `Other` (described by its `typeof`, its truthiness and its `String(...)` text).
- **Errors.** A thrown `TypeError` is `Js.Result.Err`, tagged with what its message reports.
- **Strings** are `seq<char>`.
- **Built-ins as recursive functions** in module `JsString`, each over a character class given as a `char -> bool`:
  - `trim` becomes `Trim`;
  - `replace(/[...]+/g, rep)` becomes `ReplaceRuns`;
  - `replace(/[...]/g, '')` becomes `Delete`;
  - `split` becomes `SplitBy`;
  - `join` becomes `Join`;
  - `filter(Boolean)` becomes `NonEmpty`;
  - `match(/[...]+/g)` becomes `MatchRuns`.
- **Character classes** (module `Unicode`):
  - ASCII is concrete.
  - Above ASCII, `\p{L}`, `\p{N}`, `\s` and the case maps come from a `Unicode.Table`.
  - `Unicode.Wf` collects what the proofs assume of a table:
    - a letter or number is not white space;
    - lower-casing keeps a character a letter or number, in both directions;
    - upper-casing keeps a letter or number one;
    - lower-casing is idempotent.
  - `Unicode.Latin1` is a concrete table that satisfies `Wf`. The `éxemple` case is proved on it.
- **Lemmas** state the properties. The literal cases of tests/string.test.js are lemmas in `StringTests`.
- **Which characters split words.** The documentation of lib/string.js (lines 9-10) says that only spaces, `-` and `_` separate words and that other characters are removed. The code does this: any other punctuation is deleted and joins its neighbours (`2.0` gives `20`, `a.b` gives `ab`). The `toCamelCase` of basic_prompt.js splits at every character that is not a letter or number. Both behaviours are modelled, and `BasicPrompt.DiffersFromStringLib` shows where they part.
- **Where the comments and the code disagree, the model follows the code.** The comments at lib/event.js:4-6 say white space becomes `_` and only non-word characters are removed. The class `[\W_]` at line 5 deletes that `_` again (see Findings).

## Model

| member | source | states |
|---|---|---|
| Js.ExpectString | lib/string.js:24-29 | `null`/`undefined` are rejected first, then anything whose `typeof` is not `"string"`; a string passes unchanged |
| Js.Truthy | basic_prompt.js:2 | no contract of its own: `!!text`, false for `null`, `undefined`, `""` and falsy values; `BasicPrompt.CamelCaseShape` states the result in its terms |
| Js.ToString | basic_prompt.js:4 | no contract of its own: `String(text)`, a string is itself |
| StringLib.CamelCase | lib/string.js:31-47 | no contract of its own: `StringLib.CamelCaseWords` and `StringLib.CamelCaseShape` state what it computes |
| StringLib.DotCase | lib/string.js:78-92 | no contract of its own: `StringLib.DotCaseWords`, `StringLib.DotCaseShape` and `StringLib.DotCaseSplit` state what it computes |
| StringLib.Hyphenate | lib/string.js:127-133 | no `-` at either end; `StringLib.HyphenateJoinsRuns` proves it is the lower-cased runs joined with `-` |
| StringLib.ToCamelCase | lib/string.js:23-29 | throws "null or undefined" for `null`/`undefined`, "expected string" with the type name for other non-strings, and returns a string for every string |
| StringLib.CamelCaseWords | lib/string.js:31-47 | trimming and the two early returns change nothing: the result is `""` when there are no words, otherwise the camelCase assembly of the string's words |
| StringLib.CamelCaseShape | lib/string.js:31-47 | `""` exactly when the string has no letter or number (blank strings included); otherwise only letters and numbers, no separator, one character per letter or number of the input, starting with the first word |
| StringLib.ToDotCase | lib/string.js:70-76 | the same two argument errors, in the same order; every string gives a result |
| StringLib.DotCaseWords | lib/string.js:78-92 | the result is the words joined with `.` |
| StringLib.DotCaseShape | lib/string.js:78-92 | `""` exactly when there is no letter or number; it is the words joined with `.`; no `.` at either end; never `..`; one `.` fewer than there are words; without its dots it is the input's letters and numbers, lower-cased, in order |
| StringLib.DotCaseSplit | lib/string.js:92 | splitting the dot.case result at `.` gives back the word list |
| StringLib.CamelFromDot | lib/string.js:45-47 | camelCase is recovered from dot.case by splitting at `.` and assembling |
| StringLib.NoDotInWords | lib/string.js:40 | a word holds no `.` or `-` |
| StringLib.ToKebabCase | lib/string.js:113-124 | the two argument errors, then "non-empty string" exactly when the string is blank after trimming; otherwise a result |
| StringLib.HyphenateJoinsRuns | lib/string.js:127-133 | the four steps on a trimmed string give its lower-cased maximal letter/number runs joined with `-` |
| StringLib.KebabCaseRuns | lib/string.js:121-135 | a blank string throws; any other string gives its lower-cased maximal runs joined with `-`, whatever white space surrounds it |
| StringLib.KebabCaseShape | lib/string.js:127-133 | only letters, numbers and `-`; `""` exactly when there is no letter or number; no `-` at either end; never `--`; one `-` fewer than there are runs |
| StringLib.KebabCharsAreWordChars | lib/string.js:129 | lower-cased words joined with `-` hold only letters, numbers and `-` |
| StringLib.SafetyStepNoOp | lib/string.js:131 | the safety deletion finds nothing to delete in what line 129 produced |
| StringLib.LoweredRuns | lib/string.js:127-129 | the runs of the lower-cased string are the lower-cased runs of the string; none is empty or holds `-` |
| StringLib.KebabCasePunctuation | lib/string.js:121-133 | a non-blank string of punctuation (`!!!`) does not throw and gives `""` |
| StringLib.CamelOfWords | lib/string.js:38-47 | a string whose words are `ws` converts to the camelCase assembly of `ws` |
| StringLib.DotOfWords | lib/string.js:85-92 | a string whose words are `ws` converts to `ws` joined with `.` |
| StringLib.KebabOfRuns | lib/string.js:121-133 | a non-blank string whose runs are `ws` converts to `ws` joined with `-` |
| CaseWords.SeparatorWords | lib/string.js:35-41 | no word is empty; the `SeparatorWords…` lemmas below determine the list |
| CaseWords.RunWords | basic_prompt.js:4-6 | no word is empty; the `RunWords…` lemmas below determine the list |
| CaseWords.CamelJoin | lib/string.js:45-47 | the assembly starts with the first word; `CaseWords.CamelJoinShape` states the rest |
| CaseWords.SeparatorWordsShape | lib/string.js:38-41 | every word is non-empty, lower-case, and made only of letters and numbers |
| CaseWords.SeparatorWordsContent | lib/string.js:35-41 | the words, concatenated, are the string's letters and numbers, lower-cased, in input order |
| CaseWords.SeparatorWordsPieces | lib/string.js:35-39 | collapsing separator runs before splitting changes nothing: the words are the cleaned, non-empty pieces between single separators |
| CaseWords.SeparatorWordsSplit | lib/string.js:35 | a space, `-` or `_` ends a word: the words of `a + [c] + b` are those of `a`, then those of `b` |
| CaseWords.SeparatorWordsDeleted | lib/string.js:40 | any other non-letter/number is deleted without ending a word |
| CaseWords.SeparatorWordsGap | lib/string.js:35 | a whole run of separators ends a word in the same way |
| CaseWords.SeparatorWordsWord | lib/string.js:38-41 | a non-empty string of letters and numbers is one word, lower-cased |
| CaseWords.SeparatorWordsEmpty | lib/string.js:43 | there are no words exactly when the string has no letter or number |
| CaseWords.SeparatorWordsTrim | lib/string.js:31 | white space at either end changes no word |
| CaseWords.SeparatorWordsBlank | lib/string.js:32 | a blank string has no words |
| CaseWords.SeparatorWordsDot | lib/string.js:40 | `a.b` is the single word `ab` |
| CaseWords.RunWordsShape | basic_prompt.js:4-6 | every maximal-run word is non-empty, lower-case, and made only of letters and numbers |
| CaseWords.RunWordsSplit | basic_prompt.js:4 | any non-letter/number, `.` included, ends a word: the runs of `a + [c] + b` are those of `a`, then those of `b` |
| CaseWords.RunWordsGap | basic_prompt.js:4 | a whole run of non-letters/non-numbers ends a word in the same way |
| CaseWords.RunWordsWord | basic_prompt.js:4-6 | a non-empty string of letters and numbers is one run, lower-cased |
| CaseWords.RunWordsEmpty | basic_prompt.js:4-5 | there are no runs exactly when the string has no letter or number (`match` returns `null`) |
| CaseWords.RunWordsDot | basic_prompt.js:4 | `a.b` gives the two runs `a` and `b` |
| CaseWords.WordsAgree | lib/string.js:35-41 | on strings made only of letters, numbers and separators, both ways of finding words give the same list |
| CaseWords.WordsAgreeSeparated | lib/string.js:35-41 | both ways of finding words give the same list whenever any two letters or numbers with something else between them have a space, `-` or `_` between them |
| CaseWords.CamelJoinShape | lib/string.js:45-47 | the camelCase assembly of lower-case words starts with the first word, has as many characters as the words together, and holds only letters and numbers |
| CaseWords.CapsShape | lib/string.js:46 | capitalising and joining the later words keeps their total length and their letters and numbers |
| CaseWords.CamelJoinTwo | basic_prompt.js:7 | two words assemble as the first word plus the second with its first character upper-cased |
| CaseWords.CamelJoinThree | basic_prompt.js:7 | the same for three words |
| CaseWords.CamelJoinFour | basic_prompt.js:7 | the same for four words |
| RefinedPrompt.ToCamelCase | refined_prompt.js:3-12 | `null`/`undefined` are rejected first, then non-strings; every string gives a result |
| RefinedPrompt.ToDotCase | refined_prompt.js:30-39 | the same two errors in the same order; every string gives a result |
| RefinedPrompt.SameAsStringLib | refined_prompt.js:3-53 | both functions equal their lib/string.js counterparts on every argument |
| RefinedPrompt.CamelCaseShape | refined_prompt.js:11-27 | `""` exactly when there is no letter or number; otherwise the camelCase assembly of words that are lower-case letters and numbers; no separator |
| RefinedPrompt.DotCaseShape | refined_prompt.js:38-52 | `""` exactly when there is no letter or number; the words joined with `.`; no `.` at either end; never `..` |
| RefinedPrompt.DotCaseOfString | refined_prompt.js:30-53 | on a string it returns the lib/string.js dot.case of that string |
| ChainPrompt.ToKebabCase | chain_prompt.js:13-24 | `null`/`undefined`, then non-strings, then blank strings throw; nothing else does |
| ChainPrompt.SameAsStringLib | chain_prompt.js:13-32 | equals lib/string.js `toKebabCase` on every argument |
| ChainPrompt.KebabCaseRuns | chain_prompt.js:26-29 | a non-blank string gives its lower-cased maximal runs joined with `-` |
| ChainPrompt.KebabCaseShape | chain_prompt.js:27-29 | only letters, numbers and `-`; no `-` at either end; never `--` |
| ChainPrompt.SafetyStepNoOp | chain_prompt.js:27-28 | the deletion at line 28 finds nothing to delete |
| ChainPrompt.DocExamples | chain_prompt.js:8-11 | `Hello World` gives `hello-world`; ` hello__world-test ` gives `hello-world-test` |
| BasicPrompt.ToCamelCase | basic_prompt.js:2 | a falsy argument gives `""` |
| BasicPrompt.CamelCaseShape | basic_prompt.js:2-7 | `""` exactly for a falsy argument or one without letters and numbers; otherwise the camelCase assembly of the lower-cased maximal runs, starting with the first run, one character per run character, only letters and numbers |
| BasicPrompt.AgreesWithStringLib | basic_prompt.js:1-8 | wherever punctuation stands only at the edge of a word (any two letters or numbers with something else between them have a space, `-` or `_` between them, as in `a!-b` or `  This-is_an Example!  `) it gives what lib/string.js `toCamelCase` gives |
| BasicPrompt.DiffersFromStringLib | basic_prompt.js:4 | on `a.b` it gives `aB`, while lib/string.js gives `ab` |
| BasicPrompt.DotInWord | basic_prompt.js:4-7 | `a.b` gives `aB` |
| BasicPrompt.Exemple | basic_prompt.js:4 | letters above ASCII are letters: `éxemple test` gives `éxempleTest` |
| BasicPrompt.CamelOfRuns | basic_prompt.js:4-7 | a non-empty string whose runs are `ws` gives the camelCase assembly of `ws` |
| FewShotPrompt.ToCamelCase | few_shot_prompt.js:3 | a falsy argument gives `""` |
| FewShotPrompt.SameAsBasicPrompt | few_shot_prompt.js:2-8 | equals basic_prompt.js `toCamelCase` on every argument |
| FewShotPrompt.CamelCaseShape | few_shot_prompt.js:3-7 | `""` exactly for a falsy argument or one without letters and numbers; otherwise the camelCase assembly of the lower-cased maximal runs, only letters and numbers |
| FewShotPrompt.DotInWord | few_shot_prompt.js:4 | punctuation splits words: `a.b` gives `aB` |
| Event.ToSnakeCase | lib/event.js:1-7 | only ASCII letters and digits remain, so the result holds no `_` and no white space |
| Event.ToSnakeCaseIntended | lib/event.js:4-6 | the conversion as the comments describe it: only ASCII letters, digits and `_`, never two `_` side by side |
| Event.SnakeCaseIsDelete | lib/event.js:3-6 | the conversion lower-cases, then deletes every character outside ASCII `[A-Za-z0-9]` |
| Event.UnderscoreStepNoOp | lib/event.js:5-6 | the `_` collapse at line 6 finds no `_` left by line 5 |
| Event.SnakeCaseChars | lib/event.js:3-6 | the result is only ASCII lower-case letters and digits, so no `_` and no white space, and it is no longer than the argument |
| Event.LoweredIsNotUpper | lib/event.js:3 | the lower-cased string holds no ASCII capital |
| Event.Idempotent | lib/event.js:1-7 | converting twice is converting once |
| Event.EmptyAndBlank | lib/event.js:2-6 | a blank or empty string gives `""`, without an error |
| Event.Exemple | lib/event.js:5 | letters above ASCII are deleted: `éxemple test` gives `xempletest` |
| Event.HelloWorld | lib/event.js:4-5 | a space gives no `_`: `hello world` gives `helloworld` |
| Event.IntendedShape | lib/event.js:4-6 | the corrected conversion gives only ASCII lower-case letters, digits and `_`, and never two `_` side by side |
| Event.IntendedWithoutUnderscores | lib/event.js:5 | the code as written is the corrected conversion with its `_` deleted |
| Event.IntendedHelloWorld | lib/event.js:4-6 | the corrected conversion turns `hello world` into `hello_world` |
| Event.IntendedTwoWords | lib/event.js:4-6 | the corrected conversion joins two ASCII words that have one white-space character between them with `_` |
| StringTests.CamelRejects | tests/string.test.js:5-7 | `123` throws "expected string"; `null` and `undefined` throw "null or undefined" |
| StringTests.DotRejects | tests/string.test.js:27 | `123` throws "expected string" |
| StringTests.KebabRejects | tests/string.test.js:37-38 | `123` throws "expected string"; `'   '` throws "non-empty string" |
| StringTests.EmptyInput | tests/string.test.js:23 | `""` gives `""` for camelCase |
| StringTests.DotEmptyInput | tests/string.test.js:33 | `""` gives `""` for dot.case |
| StringTests.CamelLowerHelloWorld | tests/string.test.js:10 | `hello world` gives `helloWorld` |
| StringTests.CamelHelloWorldTest | tests/string.test.js:11 | ` hello__world-test ` gives `helloWorldTest` |
| StringTests.CamelFirstName | tests/string.test.js:14 | `first name` gives `firstName` |
| StringTests.CamelUserId | tests/string.test.js:15 | `user_id` gives `userId` |
| StringTests.CamelScreenName | tests/string.test.js:16 | `SCREEN_NAME` gives `screenName` |
| StringTests.CamelMobileNumber | tests/string.test.js:17 | `mobile-number` gives `mobileNumber` |
| StringTests.CamelThisIsAnExample | tests/string.test.js:20 | `  This-is_an Example!  ` gives `thisIsAnExample` |
| StringTests.CamelConvertToCamelCase | tests/string.test.js:21 | `convert_to-camel CASE` gives `convertToCamelCase` |
| StringTests.CamelVersion | tests/string.test.js:22 | `version 2.0-beta` gives `version20Beta` |
| StringTests.CamelExemple | tests/string.test.js:24 | `éxemple test` gives `éxempleTest` on the Latin-1 table |
| StringTests.DotHelloWorld | tests/string.test.js:28 | `Hello World` gives `hello.world` |
| StringTests.DotHelloWorldTest | tests/string.test.js:29 | ` hello__world-test ` gives `hello.world.test` |
| StringTests.DotUserId | tests/string.test.js:30 | `user_id` gives `user.id` |
| StringTests.DotScreenName | tests/string.test.js:31 | `SCREEN_NAME` gives `screen.name` |
| StringTests.DotVersion | tests/string.test.js:32 | `version 2.0-beta` gives `version.20.beta` |
| StringTests.DotThisIsAnExample | tests/string.test.js:34 | `  This-is_an Example!  ` gives `this.is.an.example` |
| StringTests.KebabHelloWorld | tests/string.test.js:39 | `Hello World` gives `hello-world` |
| StringTests.KebabHelloWorldTest | tests/string.test.js:40 | ` hello__world-test ` gives `hello-world-test` |
| StringTests.KebabUpperUserId | tests/string.test.js:41 | `USER_ID` gives `user-id` |
| StringTests.KebabVersion | tests/string.test.js:42 | `version 2.0-beta` gives `version-2-0-beta` |
| StringTests.KebabThisIsAnExample | tests/string.test.js:43 | `  This-is_an Example!  ` gives `this-is-an-example` |
| StringTests.VersionWords | tests/string.test.js:22 | `.` is deleted rather than splitting: the words of `version 2.0-beta` are `version`, `20`, `beta` |
| JsString.MapChars | lib/string.js:127 | `toLowerCase` maps each character and keeps the length |
| JsString.Delete | lib/string.js:40 | the result has none of the deleted class, is no longer than the input, and is unchanged when there is nothing to delete |
| JsString.ReplaceRuns | lib/string.js:35 | a string with no character of the class is unchanged |
| JsString.SplitBy | lib/string.js:39 | there is at least one piece; a string without the separator is one piece |
| JsString.NonEmpty | lib/string.js:41 | `filter(Boolean)` keeps only non-empty words, all taken from the input, and drops nothing when none is empty |
| JsString.Trim | lib/string.js:31 | the result neither starts nor ends with white space |
| JsString.MatchRuns | basic_prompt.js:4 | the runs are non-empty and made only of characters of the class, and a string that starts in the class starts the first run |
| JsString.Join | lib/string.js:92 | no contract of its own: `JsString.JoinShape`, `JsString.SplitJoin` and `JsString.JoinSplit` state what it computes |
| JsString.MapEach | basic_prompt.js:6 | as many words as given, each mapped character by character |
| JsString.CleanEach | lib/string.js:40 | as many pieces as given, each with the deleted class removed and then mapped |
| JsString.Capitalize | lib/string.js:46 | the same length; the first character mapped, the rest unchanged |
| JsString.CapitalizeEach | lib/string.js:46 | as many words as given, each capitalised |
| JsString.TrimStart | lib/string.js:31 | a suffix of the string; everything removed is white space; the result does not start with white space |
| JsString.TrimEnd | lib/string.js:31 | a prefix of the string; everything removed is white space; the result does not end with white space |
| JsString.SplitJoin | lib/string.js:92 | splitting words joined with `d` gives back the words when none holds `d` |
| JsString.JoinSplit | lib/string.js:39 | joining the pieces of a split with the separator gives back the string |
| JsString.JoinShape | lib/string.js:92 | non-empty words without `d`, joined with `d`: no `d` at either end, never `dd`, and one `d` fewer than there are words |
| JsString.JoinSplitPieces | lib/string.js:39 | the pieces of a split, concatenated, are the string with the separators deleted |
| JsString.MatchRunsSplit | basic_prompt.js:4 | a character outside the class ends a run |
| JsString.MatchRunsEmpty | basic_prompt.js:4-5 | there are no runs exactly when no character is in the class |
| JsString.MatchRunsMap | lib/string.js:127-129 | mapping characters that keep their class membership maps the runs |
| JsString.ReplaceRunsJoinsRuns | lib/string.js:129 | replacing non-word runs with `d` gives an optional leading `d`, then the word runs joined with `d`, then an optional trailing `d` |
| JsString.ReplaceRunsSingle | lib/event.js:6 | after runs are replaced by one character of the class, no two class characters stand side by side |
| JsString.ReplaceRunsDelete | lib/event.js:4-5 | when the deleted class covers both the replaced runs and the replacement, replacing and then deleting is the same as deleting |
| JsString.TrimJoin | lib/string.js:133 | trimming `d` from leading and trailing `d` around words joined with `d` leaves the join |
| JsString.TrimMatchRuns | lib/string.js:121-129 | trimming white space does not change the runs of letters and numbers |
| JsString.TrimEmpty | lib/string.js:121-122 | trimming gives `""` exactly when the string is all white space |

## Left out

- `String(text)` for a value that is not a string is taken as given: `Js.Value.Other` carries the text `String(...)` would produce. The JavaScript coercion rules are not modelled.
- A `String(text)` conversion that throws is not modelled. At basic_prompt.js:4 and few_shot_prompt.js:4 it throws a `TypeError` for a truthy value with no primitive conversion (`Object.create(null)`) or whose `toString` throws. The model's `Js.Value.Other` always carries a text, so `BasicPrompt.ToCamelCase` and `FewShotPrompt.ToCamelCase` always return a string.
- `toSnakeCase` called with a non-string throws natively (`text.toLowerCase` is not a function). The model takes a string argument.
- Event.ToSnakeCase: its own contract says only that ASCII letters and digits remain, not that they are lower-case. Lower case depends on the `Unicode.Wf` assumption about the table, so it is stated by `Event.SnakeCaseChars`.
- BasicPrompt.AgreesWithStringLib: the converse, that the two differ wherever punctuation joins two letters or numbers, is shown only for `a.b` by `BasicPrompt.DiffersFromStringLib`. It does not hold for every string: `a.1` gives `a1` both ways, because a digit has no upper case.
- The Unicode character database is not modelled. `\p{L}`, `\p{N}`, `\s` and the case maps above ASCII are an abstract `Unicode.Table`, and the proofs assume only `Unicode.Wf` of it.
- Case mappings that change length (`ß` to `SS`) are left out, because characters are mapped one to one.
- Case mappings that depend on context are left out: Final_Sigma makes `"ΟΔΟΣ".toLowerCase()` end in `ς`, while `JsString.MapChars` gives `σ` for every table. This affects lib/string.js:40, 87 and 127, refined_prompt.js:20 and 47, chain_prompt.js:26, basic_prompt.js:6, few_shot_prompt.js:6 and lib/event.js:3.
- UTF-16 surrogate pairs seen by `charAt(0)`/`slice(1)` are left out, because a `char` is one code point.
- The text of the error messages is not modelled. Errors are tagged by what the message reports.
- `module.exports`, `console.log` and the `assert` harness of tests/string.test.js are left out; the test cases are lemmas.
- The regular-expression engine is not modelled. Each `replace`, `split` and `match` is the recursive function with the same effect.

## Findings

| source | as written | input that shows it | evidently intended | confidence | as-written member | corrected member |
|---|---|---|---|---|---|---|
| lib/event.js:5 | `[\W_]+` also deletes the `_` that line 4 just put in for white space, so line 6 never has anything to collapse | `"hello world"` gives `"helloworld"` | `"hello_world"`: white space becomes `_` and only non-word characters are removed, as the comments on lines 4-6 say | not executed | Event.HelloWorld | Event.IntendedHelloWorld |

`Event.ToSnakeCaseIntended` is the corrected conversion: line 5 removes `\W` only. `Event.IntendedShape` proves it keeps only ASCII lower-case letters, digits and single `_`. `Event.IntendedWithoutUnderscores` proves the code as written is the corrected result with every `_` deleted.
