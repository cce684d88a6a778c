/** Values produced by decoding JSON text, as the host language's JSON module yields them. */
module Json {

  datatype Option<+T> = None | Some(value: T)

  /** A decoded JSON value. Numbers are split into integers and floats, as the decoder does. */
  datatype Value =
    | Null
    | Bool(b: bool)
    | Int(i: int)
    | Float(f: real)
    | Str(s: string)
    | Array(items: seq<Value>)
    | Object(fields: map<string, Value>)

  /** Truthiness of a decoded value: null, false, zero and empty containers are false. */
  predicate Truthy(v: Value) {
    match v
    case Null => false
    case Bool(b) => b
    case Int(i) => i != 0
    case Float(f) => f != 0.0
    case Str(s) => |s| > 0
    case Array(items) => |items| > 0
    case Object(fields) => |fields| > 0
  }

  /** The decoder applied to a token that begins with `{`. A successful decode of such text is
      always an object; `None` stands for a decoding error. The decoder itself is not modelled:
      every operation that needs it takes it as a parameter. */
  type ObjectDecoder = string -> Option<map<string, Value>>
}
