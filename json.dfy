/**
 * The JSON values a route handler receives from `request.json()`, and the
 * JavaScript notions the handlers apply to them.
 */
module Json {

  /** A parsed JSON value. Numbers are exact; an object maps each key to the
      value it was given last. */
  datatype Value =
    | Null
    | Bool(b: bool)
    | Num(n: real)
    | Str(s: string)
    | Arr(items: seq<Value>)
    | Obj(fields: map<string, Value>)

  /** JavaScript truthiness: `null`, `false`, `0` and `""` are falsy, every
      other JSON value (arrays and objects included) is truthy. */
  predicate Truthy(v: Value) {
    match v
    case Null => false
    case Bool(b) => b
    case Num(n) => n != 0.0
    case Str(s) => s != []
    case Arr(_) => true
    case Obj(_) => true
  }

  /** A number with no fractional part. */
  predicate IsInteger(n: real) {
    n.Floor as real == n
  }
}
