/** Values that arrive in request bodies, and Python's notion of truthiness for them. */
module JsonValues {

  datatype Option<T> = None | Some(value: T)

  /** A decoded JSON value. Numbers are integers in this model. */
  datatype Json =
    | JNull
    | JBool(b: bool)
    | JNum(n: int)
    | JStr(s: string)
    | JArray(items: seq<Json>)
    | JObject(fields: map<string, Json>)

  /** A decoded JSON object body: a Python dict from field names to values. */
  type Payload = map<string, Json>

  /** `bool(v)` in Python: null, false, 0, "", [] and {} are falsy. */
  predicate Truthy(v: Json)
  {
    match v
    case JNull => false
    case JBool(b) => b
    case JNum(n) => n != 0
    case JStr(s) => s != ""
    case JArray(items) => items != []
    case JObject(fields) => fields != map[]
  }

  /** `len(v)`: defined for strings, lists and dicts; on null, booleans and numbers it raises. */
  function Len(v: Json): (n: Option<nat>)
    ensures n.None? <==> v.JNull? || v.JBool? || v.JNum?
    ensures v.JStr? ==> n == Some(|v.s|)
    ensures v.JArray? ==> n == Some(|v.items|)
    ensures v.JObject? ==> n == Some(|v.fields|)
    ensures n == Some(0) <==> n.Some? && !Truthy(v)
  {
    match v
    case JStr(s) => Some(|s|)
    case JArray(items) => Some(|items|)
    case JObject(fields) => Some(|fields|)
    case _ => None
  }

  /** `field in data and data[field]`: the field is present with a truthy value. */
  predicate Supplied(data: Payload, field: string)
  {
    field in data && Truthy(data[field])
  }
}
