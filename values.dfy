/** Values shared by the server-side argument handler and the REST client:
    an optional value, bytes, and the JSON values that `json.loads` produces. */
module Values {

  datatype Option<+T> = None | Some(value: T)

  newtype byte = x: int | 0 <= x < 256

  type Bytes = seq<byte>

  /** A decoded JSON value. An object keeps its keys in insertion order,
      as a Python `dict` does. */
  datatype Json =
    | JNull
    | JBool(b: bool)
    | JInt(i: int)
    | JFloat(f: real)
    | JStr(s: string)
    | JArray(items: seq<Json>)
    | JObject(fields: seq<(string, Json)>)

  /** What decoding bytes as JSON gives: a value, `json.JSONDecodeError`, or
      some other exception (bytes that are not valid UTF-8, say). */
  datatype Loaded = Loaded(value: Json) | JsonDecodeError | OtherDecodeError

  /** Python truthiness of the value a JSON document decodes to. */
  predicate Truthy(v: Json)
  {
    match v
    case JNull => false
    case JBool(b) => b
    case JInt(i) => i != 0
    case JFloat(f) => f != 0.0
    case JStr(s) => s != ""
    case JArray(items) => items != []
    case JObject(fields) => fields != []
  }
}
