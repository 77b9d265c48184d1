/** The values `json.loads` produces, and the decoder itself as an opaque
    parameter: the JSON grammar is not part of this model. */
module Json {
  import opened Results

  /** A decoded JSON document: Python's None, bool, int, float, str, list
      and dict. A number without fraction or exponent is an `int`; any
      other is a `float`, held here exactly, as are the `NaN`, `Infinity`
      and `-Infinity` that `json.loads` also accepts. Objects are maps, so
      a repeated key keeps one value and the keys lose their order. */
  datatype Value =
    | JNull
    | JBool(b: bool)
    | JInt(i: int)
    | JFloat(f: real)
    | JNaN
    | JInfinity(negative: bool)
    | JString(s: string)
    | JArray(elems: seq<Value>)
    | JObject(fields: map<string, Value>)

  /** `json.loads`: a decoded value, or `Err(details)` for a
      `JSONDecodeError` whose `str()` is `details`. */
  type Decoder = string -> Result<Value>
}
