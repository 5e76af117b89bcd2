/** Decoded JSON values. */
module JsonValues {
  import opened Wrappers

  datatype Json =
    | JNull
    | JBool(b: bool)
    | JNumber(n: real)
    | JString(s: string)
    | JArray(items: seq<Json>)
    | JObject(fields: map<string, Json>)

  /** `d.get(name, default)` on a decoded object. */
  function Get(fields: map<string, Json>, name: string, default: Json): Json {
    if name in fields then fields[name] else default
  }
}
