/** The JSON values `response.json()` can produce, and the read `v.reply` on them. */
module Json {
  import opened Wrappers

  /** A parsed JSON document. Duplicate keys are already resolved (the last one wins in
      `JSON.parse`), so an object is a map from keys to values. */
  datatype Json =
    | JNull
    | JBool(b: bool)
    | JNumber(n: real)
    | JString(s: string)
    | JArray(items: seq<Json>)
    | JObject(fields: map<string, Json>)

  /** `v.reply` for a non-null value `v`: the field's value when `v` is an object with a
      `reply` key, and `undefined` (None) otherwise. No array, string, number or boolean
      has an own or inherited property named `reply`. Property access in general (`length`,
      array indices, `toString`, ...) is not modelled. */
  function ReplyProperty(v: Json): (r: Option<Json>)
    requires !v.JNull?
    ensures r.Some? <==> v.JObject? && "reply" in v.fields
    ensures r.Some? ==> r.value == v.fields["reply"]
  {
    match v
    case JObject(fields) => if "reply" in fields then Some(fields["reply"]) else None
    case _ => None
  }

  /** JavaScript's `x ?? d`: `d` when `x` is null or undefined, `x` otherwise. */
  function Coalesce(x: Option<Json>, d: Json): (r: Json)
    ensures x.Some? && !x.value.JNull? ==> r == x.value
    ensures x.None? || x.value.JNull? ==> r == d
  {
    match x
    case Some(v) => if v.JNull? then d else v
    case None => d
  }
}
