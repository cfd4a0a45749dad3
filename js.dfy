/** The JavaScript values a conversion can be called with, and the errors it raises. */
module Js {

  /** An argument: `null`, `undefined`, a string, or any other value, given by what `typeof` says of it,
      whether it is truthy, and what `String(value)` makes of it. */
  datatype Value =
    | Null
    | Undefined
    | Str(s: string)
    | Other(typeName: string, truthy: bool, text: string)

  /** The `TypeError`s the conversions throw, by what their message reports. */
  datatype TypeError =
    | NullOrUndefined          // "input is null or undefined"
    | NotAString(typeName: string)   // "expected string but received <typeof text>"
    | EmptyString              // "expected a non-empty string"

  /** A conversion either returns a string or throws. */
  datatype Result = Ok(value: string) | Err(error: TypeError)

  /** The two checks that open `toCamelCase`, `toDotCase` and `toKebabCase`: `null` and `undefined` first,
      then anything whose `typeof` is not `"string"`. */
  function ExpectString(text: Value): (r: Result)
    ensures r.Ok? <==> text.Str?
    ensures text.Str? ==> r.value == text.s
    ensures text.Null? || text.Undefined? ==> r == Err(NullOrUndefined)
    ensures text.Other? ==> r == Err(NotAString(text.typeName))
  {
    match text
    case Null => Err(NullOrUndefined)
    case Undefined => Err(NullOrUndefined)
    case Other(t, _, _) => Err(NotAString(t))
    case Str(s) => Ok(s)
  }

  /** `!!text`: `null`, `undefined` and the empty string are falsy. */
  predicate Truthy(text: Value) {
    match text
    case Null => false
    case Undefined => false
    case Str(s) => s != []
    case Other(_, t, _) => t
  }

  /** `String(text)` */
  function ToString(text: Value): string {
    match text
    case Null => "null"
    case Undefined => "undefined"
    case Str(s) => s
    case Other(_, _, t) => t
  }
}
