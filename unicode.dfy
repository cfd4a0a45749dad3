/** Character classes the conversions consult.

    The regular expressions of the conversions use `\p{L}` (letters), `\p{N}` (numbers), `\s` (white space, also what
    `String.prototype.trim` removes) and, without the `u` flag, `\w` (ASCII letters, digits and `_`); `toLowerCase` and
    `toUpperCase` map characters. On ASCII these are fixed here; for every other character they are read from a
    `Table`, which stands for the Unicode character database and is left open: the properties proved hold for every
    table that satisfies `Wf`. */
module Unicode {

  /** What the Unicode character database says about a character outside ASCII. */
  datatype Table = Table(
    letter: char -> bool,   // general category L
    number: char -> bool,   // general category N
    space: char -> bool,    // White_Space or line terminator
    lower: char -> char,    // one-character lower-case mapping
    upper: char -> char)    // one-character upper-case mapping

  predicate IsAscii(c: char) { c < '\U{80}' }
  predicate IsAsciiUpper(c: char) { 'A' <= c <= 'Z' }
  predicate IsAsciiLower(c: char) { 'a' <= c <= 'z' }
  predicate IsAsciiDigit(c: char) { '0' <= c <= '9' }
  predicate IsAsciiAlnum(c: char) { IsAsciiUpper(c) || IsAsciiLower(c) || IsAsciiDigit(c) }

  /** `\w` in a regular expression without the `u` flag */
  predicate IsAsciiWordChar(c: char) { IsAsciiAlnum(c) || c == '_' }

  /** `\p{L}` */
  predicate IsLetter(u: Table, c: char) {
    if IsAscii(c) then IsAsciiUpper(c) || IsAsciiLower(c) else u.letter(c)
  }

  /** `\p{N}` */
  predicate IsNumber(u: Table, c: char) {
    if IsAscii(c) then IsAsciiDigit(c) else u.number(c)
  }

  /** `[\p{L}\p{N}]`: the characters words are made of */
  predicate IsWordChar(u: Table, c: char) { IsLetter(u, c) || IsNumber(u, c) }

  /** `\s`, and the characters `trim()` removes */
  predicate IsSpace(u: Table, c: char) {
    if IsAscii(c) then c == ' ' || c == '\t' || c == '\n' || c == '\U{B}' || c == '\U{C}' || c == '\r'
    else u.space(c)
  }

  /** `[-_\s]`: the characters that separate words before punctuation is stripped */
  predicate IsSeparator(u: Table, c: char) { c == '-' || c == '_' || IsSpace(u, c) }

  function AsciiLower(c: char): char
    requires IsAscii(c)
  {
    if IsAsciiUpper(c) then (c as int + 32) as char else c
  }

  function ToLower(u: Table, c: char): (r: char)
    ensures IsAscii(c) ==> IsAscii(r) && !IsAsciiUpper(r)
    ensures IsAsciiAlnum(c) ==> IsAsciiAlnum(r)
  {
    if IsAscii(c) then AsciiLower(c) else u.lower(c)
  }

  function ToUpper(u: Table, c: char): (r: char)
    ensures IsAscii(c) ==> IsAscii(r) && !IsAsciiLower(r)
    ensures IsAsciiAlnum(c) ==> IsAsciiAlnum(r)
  {
    if IsAscii(c) then (if IsAsciiLower(c) then (c as int - 32) as char else c) else u.upper(c)
  }

  /** What the model assumes of the database outside ASCII (on ASCII all four hold by definition):
      a letter or number is not white space; lower-casing neither makes nor unmakes a letter or number;
      upper-casing keeps a letter or number one; lower-casing twice is lower-casing once. */
  ghost predicate Wf(u: Table) {
    && (forall c :: IsWordChar(u, c) ==> !IsSpace(u, c))
    && (forall c :: IsWordChar(u, ToLower(u, c)) == IsWordChar(u, c))
    && (forall c :: IsWordChar(u, c) ==> IsWordChar(u, ToUpper(u, c)))
    && (forall c :: ToLower(u, ToLower(u, c)) == ToLower(u, c))
  }

  // The classes as function values, for the generic string operations of module JsString.

  function WordChar(u: Table): char -> bool { c => IsWordChar(u, c) }
  function NonWordChar(u: Table): char -> bool { c => !IsWordChar(u, c) }
  /** `[^\p{L}\p{N}-]` */
  function NonWordNorHyphen(u: Table): char -> bool { c => !IsWordChar(u, c) && c != '-' }
  function SpaceChar(u: Table): char -> bool { c => IsSpace(u, c) }
  function SeparatorChar(u: Table): char -> bool { c => IsSeparator(u, c) }
  function LowerChar(u: Table): char -> char { c => ToLower(u, c) }
  function UpperChar(u: Table): char -> char { c => ToUpper(u, c) }
  /** `[\W_]` without the `u` flag */
  function NonAsciiAlnum(): char -> bool { c => !IsAsciiAlnum(c) }
  /** `\W` without the `u` flag */
  function NonAsciiWordChar(): char -> bool { c => !IsAsciiWordChar(c) }

  lemma WordCharIsNotSeparator(u: Table, c: char)
    requires Wf(u) && IsWordChar(u, c)
    ensures !IsSeparator(u, c) && c != ' ' && c != '.' && c != '-'
  {
  }

  // A concrete table for the Latin-1 Supplement block (U+0080 to U+00FF), used by the literal examples.
  // It is a table of that block only: `µ` and `ÿ` upper-case to themselves because their capitals lie outside the block,
  // and every character beyond the block counts as neither letter, number nor space.

  predicate Latin1Letter(c: char) {
    ('À' <= c <= 'ÿ' && c != '×' && c != '÷') || c == 'ª' || c == 'µ' || c == 'º'
  }
  predicate Latin1Number(c: char) { c == '²' || c == '³' || c == '¹' || c == '¼' || c == '½' || c == '¾' }
  predicate Latin1Space(c: char) { c == '\U{A0}' }
  function Latin1Lower(c: char): char {
    if 'À' <= c <= 'Þ' && c != '×' then (c as int + 32) as char else c
  }
  function Latin1Upper(c: char): char {
    if 'à' <= c <= 'þ' && c != '÷' then (c as int - 32) as char else c
  }

  const Latin1: Table := Table(Latin1Letter, Latin1Number, Latin1Space, Latin1Lower, Latin1Upper)

  lemma Latin1Wf()
    ensures Wf(Latin1)
  {
  }
}
