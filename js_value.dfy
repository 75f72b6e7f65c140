/**
 * A JSON value where a TypeScript handler reads one field of a parsed body,
 * as far as the handlers look at it: whether it is there, `null`, a string,
 * or some other value, and what `!v` and `String(v)` make of it.
 */
module JsValue {

  /** A field read from a parsed JSON body: absent (`undefined`), `null`, a
      string, or any other JSON value (a number, boolean, array or object),
      given by its truthiness and its `String()` form. */
  datatype Field = Absent | Null | Str(s: string) | Other(truthy: bool, text: string)

  /** JavaScript truthiness. */
  predicate Truthy(f: Field) {
    match f
    case Absent => false
    case Null => false
    case Str(s) => s != []
    case Other(truthy, _) => truthy
  }

  /** JavaScript `String(f)`. */
  function JsString(f: Field): string {
    match f
    case Absent => "undefined"
    case Null => "null"
    case Str(s) => s
    case Other(_, text) => text
  }
}
