/**
 The values a request carries. `express.json()` turns the body into a
 JavaScript object whose fields are JSON values; a field the client leaves
 out reads as `undefined`.
 */
module Values {

  datatype Option<+T> = None | Some(value: T)

  /** A JSON value as seen by a route handler (integer numbers only). */
  datatype JsValue =
    | Undefined
    | Null
    | Bool(b: bool)
    | Number(n: int)
    | Str(s: string)

  /** JavaScript truthiness: `!v` holds exactly when `Truthy(v)` does not. */
  predicate Truthy(v: JsValue)
  {
    match v
    case Undefined => false
    case Null => false
    case Bool(b) => b
    case Number(n) => n != 0
    case Str(s) => s != ""
  }
}
