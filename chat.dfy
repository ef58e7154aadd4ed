/** The `Chat` component's conversation controller: its three pieces of state and the
    steps of a send cycle. `handleSend` runs as two atomic steps here, `HandleSend`
    (everything before `await fetch`) and `Settle` (the success, failure and `finally`
    paths); the exchange in between, both `await fetch` and `await response.json()`, is
    the `outcome` passed to `Settle`. */
module Chat {
  import opened Wrappers
  import opened Json
  import opened Text
  import opened Messages
  import opened Reply

  class ChatController {
    var messages: seq<Message>
    var input: string
    var isTyping: bool
    /** The id the outstanding exchange will settle (`tempBotMessageId` of its closure). */
    ghost var pending: string
    /** How many error notifications (`toast`) have been raised. */
    ghost var notices: nat

    /** Ids are unique, and the typing messages are exactly the in-flight placeholder
        while a reply is awaited and none otherwise. */
    ghost predicate Valid()
      reads this
    {
      Consistent(messages, isTyping, pending)
    }

    constructor ()
      ensures Valid()
      ensures messages == [] && input == "" && !isTyping && notices == 0
    {
      messages, input, isTyping := [], "", false;
      pending, notices := "", 0;
    }

    /** The textarea's `onChange`. */
    method SetInput(value: string)
      modifies this
      ensures input == value
      ensures messages == old(messages) && isTyping == old(isTyping)
      ensures pending == old(pending) && notices == old(notices)
    {
      input := value;
    }

    /** The state after `handleSend` has begun a send with the given fresh ids, or no
        change at all when the trimmed draft is empty. */
    twostate predicate Began(userId: string, botId: string)
      reads this
    {
      if Trim(old(input)) == "" then
        messages == old(messages) && input == old(input) && isTyping == old(isTyping)
        && pending == old(pending) && notices == old(notices)
      else
        messages == old(messages) + [UserMessage(userId, Trim(old(input))), Placeholder(botId)]
        && input == "" && isTyping && pending == botId && notices == old(notices)
    }

    /** `handleSend` up to the request: guard on the trimmed draft, append the user's
        message, clear the draft, raise the flag, append the placeholder. It does not
        check `isTyping` itself; the invariant is kept when its callers have. */
    method HandleSend(userId: string, botId: string) returns (started: bool)
      requires Valid()
      requires userId !in Ids(messages) && botId !in Ids(messages) && userId != botId
      modifies this
      ensures started <==> Trim(old(input)) != ""
      ensures Began(userId, botId)
      ensures UniqueIds(messages)
      ensures !old(isTyping) ==> Valid()
    {
      var text := Trim(input);
      if text == "" {
        return false;
      }
      var user := UserMessage(userId, text);
      ghost var before, wasTyping, was := messages, isTyping, pending;
      BeginUniqueIds(before, user, Placeholder(botId));
      if !wasTyping {
        BeginConsistent(before, user, botId, was);
      }
      messages := messages + [user];
      input := "";
      isTyping := true;
      messages := messages + [Placeholder(botId)];
      pending := botId;
      started := true;
      assert messages == before + [user, Placeholder(botId)];
    }

    /** `handleInputKeyDown`: Enter without Shift prevents the default newline and sends
        unless a reply is awaited; every other key leaves the state alone. */
    method KeyDown(key: string, shiftKey: bool, userId: string, botId: string)
      returns (prevented: bool)
      requires Valid()
      requires userId !in Ids(messages) && botId !in Ids(messages) && userId != botId
      modifies this
      ensures Valid()
      ensures prevented <==> key == "Enter" && !shiftKey
      ensures prevented && !old(isTyping) ==> Began(userId, botId)
      ensures !prevented || old(isTyping) ==>
                messages == old(messages) && input == old(input) && isTyping == old(isTyping)
                && pending == old(pending) && notices == old(notices)
    {
      prevented := key == "Enter" && !shiftKey;
      if prevented && !isTyping {
        var _ := HandleSend(userId, botId);
      }
    }

    /** The form's `onSubmit`: always prevents the default page reload, and sends unless a
        reply is awaited. */
    method Submit(userId: string, botId: string) returns (prevented: bool)
      requires Valid()
      requires userId !in Ids(messages) && botId !in Ids(messages) && userId != botId
      modifies this
      ensures prevented
      ensures Valid()
      ensures !old(isTyping) ==> Began(userId, botId)
      ensures old(isTyping) ==>
                messages == old(messages) && input == old(input) && isTyping
                && pending == old(pending) && notices == old(notices)
    {
      prevented := true;
      if !isTyping {
        var _ := HandleSend(userId, botId);
      }
    }

    /** The rest of `handleSend`: with a reply, the message with the placeholder's id is
        replaced by the finished bot message; on failure one notification is raised and
        every typing message is filtered out. Either way the flag is cleared. */
    method Settle(placeholder: string, outcome: Outcome)
      requires Valid() && isTyping && placeholder == pending
      modifies this
      ensures Valid() && !isTyping
      ensures input == old(input)
      ensures Resolution(outcome).Some? ==>
                messages == ReplaceById(old(messages), placeholder,
                                        BotMessage(placeholder, Resolution(outcome).value))
                && notices == old(notices)
      ensures Resolution(outcome).None? ==>
                messages == DropTyping(old(messages)) && notices == old(notices) + 1
    {
      var reply := Resolution(outcome);
      if reply.Some? {
        var bot := BotMessage(placeholder, reply.value);
        ReplaceConsistent(messages, placeholder, bot, pending);
        messages := ReplaceById(messages, placeholder, bot);
      } else {
        notices := notices + 1;
        DropConsistent(messages, pending);
        messages := DropTyping(messages);
      }
      isTyping := false;
    }
  }

  /** Sending "  hello  " and getting `{"reply": "world"}` back ends with the trimmed
      user message and the bot's reply, and nothing awaited. */
  method SuccessfulExchange(userId: string, botId: string) returns (final: seq<Message>, busy: bool)
    requires userId != botId
    ensures final == [UserMessage(userId, "hello"), BotMessage(botId, JString("world"))]
    ensures !busy
  {
    var chat := new ChatController();
    var pad, word := "  ", "hello";
    TrimPadded(pad, word, pad);
    chat.SetInput(pad + word + pad);
    var prevented := chat.KeyDown("Enter", false, userId, botId);
    var user := UserMessage(userId, word);
    assert chat.messages == [] + [user, Placeholder(botId)];
    var body := map["reply" := JString("world")];
    ReplyFieldUsed(body);
    SucceededCycle([], user, botId, JString("world"));
    chat.Settle(botId, Ok(JObject(body)));
    final, busy := chat.messages, chat.isTyping;
  }

  /** Sending "  hello  " and failing the exchange leaves only the user's message and
      raises the error notification exactly once. */
  method FailedExchange(userId: string, botId: string)
    returns (final: seq<Message>, busy: bool, ghost notified: bool)
    requires userId != botId
    ensures final == [UserMessage(userId, "hello")]
    ensures !busy && notified
  {
    var chat := new ChatController();
    var pad, word := "  ", "hello";
    TrimPadded(pad, word, pad);
    chat.SetInput(pad + word + pad);
    var _ := chat.Submit(userId, botId);
    var user := UserMessage(userId, word);
    assert chat.messages == [] + [user, Placeholder(botId)] && chat.notices == 0;
    FailedCycle([], user, botId);
    assert [] + [user] == [user];
    chat.Settle(botId, Failed);
    assert chat.messages == [user];
    notified := chat.notices == 1;
    final, busy := chat.messages, chat.isTyping;
  }

  /** While a reply is awaited a second Enter or submit is rejected, not queued: the
      conversation and the draft stay as they were. */
  method SecondSendRejected(ids: seq<string>) returns (count: nat, draft: string)
    requires |ids| == 4 && forall i, j :: 0 <= i < j < 4 ==> ids[i] != ids[j]
    ensures count == 2 && draft == "again"
  {
    var chat := new ChatController();
    TrimPadded([], "hi", []);
    assert [] + "hi" + [] == "hi";
    chat.SetInput("hi");
    var _ := chat.Submit(ids[0], ids[1]);
    chat.SetInput("again");
    assert ids[2] !in Ids(chat.messages) && ids[3] !in Ids(chat.messages);
    var _ := chat.KeyDown("Enter", false, ids[2], ids[3]);
    var _ := chat.Submit(ids[2], ids[3]);
    count, draft := |chat.messages|, chat.input;
  }
}
