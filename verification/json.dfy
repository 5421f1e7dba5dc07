/**
 * A parsed JSON value, standing in for what the json-simple parser returns:
 * a JSONObject is a hash map (its keys have no order), a JSONArray a list.
 */
module Json {

  datatype Json =
    | JObject(members: map<string, Json>)
    | JArray(items: seq<Json>)
    | JString(text: string)
    | JNumber(number: real)
    | JBool(truth: bool)
    | JNull

  /**
   * `JSONObject.get`: an absent key and a key bound to JSON null both
   * give Java's null, here JNull.
   */
  function Get(members: map<string, Json>, key: string): Json
  {
    if key in members then members[key] else JNull
  }
}
