/**
  * JSON documents as `readJson` yields them. A manifest (`package.json`) is a
  * JSON object, kept as a map from key to value so that fields the tool does
  * not know survive a read-modify-write untouched.
  */
module Json {

  datatype Json =
    | JNull
    | JBool(b: bool)
    | JNumber(n: int)
    | JString(s: string)
    | JArray(items: seq<Json>)
    | JObject(fields: map<string, Json>)

  /** The top-level object of a `package.json` file. */
  type Manifest = map<string, Json>
}
