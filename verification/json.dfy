/** The values `json.load` produces: the decoded document is an input of the model. */
module Json {

  /** A decoded JSON document as Python sees it: `None`, `bool`, a number, `str`,
      `list` and `dict` (whose keys JSON restricts to strings). */
  datatype JsonValue =
    | JNull
    | JBool(b: bool)
    | JNumber(n: int)
    | JString(s: string)
    | JArray(items: seq<JsonValue>)
    | JObject(fields: map<string, JsonValue>)

  /** The value is a JSON object (a Python dict). */
  predicate IsDict(v: JsonValue) {
    v.JObject?
  }

  /** The value is a JSON array (a Python list). */
  predicate IsList(v: JsonValue) {
    v.JArray?
  }
}
