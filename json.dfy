/**
 * The values Python's `json.loads` can produce, and the two operations the
 * checker performs on them: truthiness (`if x:`) and `dict.get(key, default)`.
 * Decoding itself is not modelled; see `Evaluation.Decoded`.
 */
module Json {

  datatype Json =
    | JNull
    | JBool(b: bool)
    | JInt(i: int)
    | JFloat(f: real)
    | JString(s: string)
    | JArray(items: seq<Json>)
    | JObject(fields: map<string, Json>)

  /** Python truthiness of a decoded value: `None`, `False`, zero, and empty
      strings, lists and dicts are false; everything else is true. */
  predicate Truthy(v: Json) {
    match v
    case JNull => false
    case JBool(b) => b
    case JInt(i) => i != 0
    case JFloat(f) => f != 0.0
    case JString(s) => s != ""
    case JArray(items) => items != []
    case JObject(fields) => fields != map[]
  }

  /** Python's `d.get(key, default)`: a present key yields its value, even a falsy one. */
  function Get(fields: map<string, Json>, key: string, default: Json): (v: Json)
    ensures key in fields ==> v == fields[key]
    ensures key !in fields ==> v == default
  {
    if key in fields then fields[key] else default
  }

  /** The dict `{"error": message}` that the evaluator returns on failure. */
  function ErrorObject(message: string): (v: Json)
    ensures v.JObject? && v.fields.Keys == {"error"} && v.fields["error"] == JString(message)
  {
    JObject(map["error" := JString(message)])
  }
}
