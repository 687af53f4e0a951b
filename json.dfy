/**
 * A decoded JSON document, in the shape encoding/json produces when it decodes
 * into an interface{} target: nil, bool, float64, string, []interface{} and
 * map[string]interface{}. The value kinds are those of section 3 of RFC 8259.
 */
module Json {

  /** One JSON value. A number is kept as its literal text and never interpreted. */
  datatype Value =
    | Null
    | Bool(b: bool)
    | Number(literal: string)
    | String(s: string)
    | Array(items: seq<Value>)
    | Object(fields: map<string, Value>)
}
