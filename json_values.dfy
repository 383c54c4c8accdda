/** Parsed JSON values (RFC 8259) as `JSON.parse` and Python's `json.loads` return them.
    The parsers themselves are not modelled: they are passed in as functions from text to
    `Some(value)`, or to `None` when the text is not JSON. */
module JsonValues {
  import opened Outcomes

  /** Objects are maps (both parsers keep the last of duplicate keys); numbers are integers. */
  datatype Json =
    | JNull
    | JBool(b: bool)
    | JNumber(n: int)
    | JString(s: string)
    | JArray(items: seq<Json>)
    | JObject(fields: map<string, Json>)

  /** Property access `v.key` on any value other than `null`: an object's own member, and
      `undefined` (here `None`) for a missing member or a value that is not an object. */
  function Member(v: Json, key: string): (r: Option<Json>)
    ensures r.Some? <==> v.JObject? && key in v.fields
  {
    if v.JObject? && key in v.fields then Some(v.fields[key]) else None
  }

  /** `Array.isArray(v.key)`: the member is present and is an array. */
  predicate HasArrayMember(v: Json, key: string) {
    v.JObject? && key in v.fields && v.fields[key].JArray?
  }

  /** `typeof v.key === 'string'`. */
  predicate HasStringMember(v: Json, key: string) {
    v.JObject? && key in v.fields && v.fields[key].JString?
  }
}
