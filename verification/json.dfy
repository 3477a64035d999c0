/** The already-parsed JSON values (RFC 8259) that the loop decoder is handed, and the
    JavaScript truthiness the decoder applies to every cell. */
module Json {

  /** A JSON value as `JSON.parse` produces it. A number keeps its decimal form
      mantissa × 10^exponent; an object keeps its members in source order. */
  datatype Value =
    | JNull
    | JBool(b: bool)
    | JNumber(mantissa: int, exponent: int)
    | JString(s: string)
    | JArray(items: seq<Value>)
    | JObject(members: seq<(string, Value)>)

  /** JavaScript's `Boolean(v)` on a parsed JSON value: `null`, `false`, zero and the
      empty string are falsy; every array and object, even an empty one, is truthy. */
  predicate Truthy(v: Value) {
    match v
    case JNull => false
    case JBool(b) => b
    case JNumber(mantissa, _) => mantissa != 0
    case JString(s) => |s| > 0
    case JArray(_) => true
    case JObject(_) => true
  }

  /** `JSON.stringify` of a boolean, as a value. */
  function FromBool(b: bool): (v: Value)
    ensures Truthy(v) == b
    ensures v.JBool?
  {
    JBool(b)
  }
}
