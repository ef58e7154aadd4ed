/** How one webhook exchange ends, and the reply text `handleSend` takes from it:
    `const botReply = data.reply ?? "Sorry, I could not get a response."`. */
module Reply {
  import opened Wrappers
  import opened Json

  const Fallback: string := "Sorry, I could not get a response."

  /** The end of the exchange as the controller sees it. `Ok(data)` is a response whose
      status was ok and whose body parsed as the JSON value `data`; `Failed` covers a
      `fetch` that threw, a non-ok status and a body that is not JSON. */
  datatype Outcome = Ok(data: Json) | Failed

  /** The reply text for a parsed body, or None when reading `data.reply` throws. */
  function ReplyOf(data: Json): (r: Option<Json>)
    ensures r.None? <==> data.JNull?
    ensures r.Some? ==> !r.value.JNull?
    ensures r.Some? && r.value != JString(Fallback) ==>
              data.JObject? && "reply" in data.fields && data.fields["reply"] == r.value
  {
    if data.JNull? then None else Some(Coalesce(ReplyProperty(data), JString(Fallback)))
  }

  /** The reply an exchange yields; None sends the controller down its failure path. */
  function Resolution(outcome: Outcome): (r: Option<Json>)
    ensures r.None? <==> outcome.Failed? || outcome.data.JNull?
  {
    match outcome
    case Failed => None
    case Ok(data) => ReplyOf(data)
  }

  /** A `reply` field that is neither null nor undefined is used as it is, whatever its
      type, the empty string included. */
  lemma ReplyFieldUsed(fields: map<string, Json>)
    requires "reply" in fields && !fields["reply"].JNull?
    ensures ReplyOf(JObject(fields)) == Some(fields["reply"])
  {
  }

  lemma EmptyReplyKept()
    ensures ReplyOf(JObject(map["reply" := JString("")])) == Some(JString(""))
  {
    ReplyFieldUsed(map["reply" := JString("")]);
  }

  /** Any other non-null body (no `reply` key, a null `reply`, or not an object at all)
      yields exactly the fallback text. */
  lemma FallbackOtherwise(data: Json)
    requires !data.JNull?
    requires !(data.JObject? && "reply" in data.fields && !data.fields["reply"].JNull?)
    ensures ReplyOf(data) == Some(JString(Fallback))
  {
  }

  /** A body that parses to `null` makes `data.reply` throw: the failure path. */
  lemma NullBodyFails()
    ensures Resolution(Ok(JNull)) == None
  {
  }
}
