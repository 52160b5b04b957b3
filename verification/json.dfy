/**
 * An already-parsed JSON document, and the few `org.json` accessors the news
 * reader uses on it. Parsing JSON text is not modelled: callers receive a
 * partial parse function as a parameter. Each accessor that throws
 * `JSONException` in the library returns `None` here.
 */
module Json {
  import opened Wrappers

  /**
   * A JSON value. Numbers, booleans and `null` are kept only as the text that
   * `toString()` gives them (`JSONObject.NULL` prints as "null").
   */
  datatype Json =
    | JObject(members: map<string, Json>)
    | JArray(items: seq<Json>)
    | JString(text: string)
    | JScalar(printed: string)

  /**
   * `JSONObject.optString(key)`: the string under `key`, the printed form of a
   * scalar under `key`, and "" when `key` is absent.
   */
  function OptString(obj: map<string, Json>, key: string): (r: string)
    ensures key !in obj ==> r == ""
    ensures key in obj && obj[key].JString? ==> r == obj[key].text
    ensures key in obj && obj[key].JScalar? ==> r == obj[key].printed
  {
    if key !in obj then ""
    else match obj[key]
      case JString(s) => s
      case JScalar(p) => p
      case _ => ""
  }

  /** `JSONObject.getJSONObject(key)`: throws unless `key` holds an object. */
  function GetJsonObject(obj: map<string, Json>, key: string): (r: Option<map<string, Json>>)
    ensures r.Some? <==> key in obj && obj[key].JObject?
    ensures r.Some? ==> r.value == obj[key].members
  {
    if key in obj && obj[key].JObject? then Some(obj[key].members) else None
  }

  /** `JSONObject.getJSONArray(key)`: throws unless `key` holds an array. */
  function GetJsonArray(obj: map<string, Json>, key: string): (r: Option<seq<Json>>)
    ensures r.Some? <==> key in obj && obj[key].JArray?
    ensures r.Some? ==> r.value == obj[key].items
  {
    if key in obj && obj[key].JArray? then Some(obj[key].items) else None
  }

  /** `JSONArray.getJSONObject(i)` for an index in range: throws unless element `i` is an object. */
  function ElementObject(arr: seq<Json>, i: nat): (r: Option<map<string, Json>>)
    requires i < |arr|
    ensures r.Some? <==> arr[i].JObject?
    ensures r.Some? ==> r.value == arr[i].members
  {
    if arr[i].JObject? then Some(arr[i].members) else None
  }
}
