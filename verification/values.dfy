/** Column values and JSON payloads as the server stores and returns them. */
module Values {
  /** A value held in a table column or sent in a request: SQL NULL / Python
      None, a boolean, an integer, a float, a string, or a timestamp (an
      uninterpreted instant). */
  datatype Value = Null | Bool(b: bool) | Int(i: int) | Real(r: real) | Str(s: string) | Time(t: int)

  /** Python truthiness of a value. */
  predicate Truthy(v: Value) {
    match v
    case Null => false
    case Bool(b) => b
    case Int(i) => i != 0
    case Real(r) => r != 0.0
    case Str(s) => s != ""
    case Time(_) => true
  }

  /** A JSON response body: a scalar, an array or an object. */
  datatype Json = JVal(v: Value) | JArr(items: seq<Json>) | JObj(fields: map<string, Json>)

  /** A JSON string. */
  function JStr(s: string): Json {
    JVal(Str(s))
  }

  /** A JSON integer. */
  function JInt(i: int): Json {
    JVal(Int(i))
  }
}
