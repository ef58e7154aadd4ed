# Chat conversation controller, modelled in Dafny

This project models the conversation controller of the `Chat` React component
(`src/components/Chat.tsx`) of a single-page chat widget. The controller owns three pieces of
state: `messages`, the ordered list of `{id, text, sender, typing?}` records; `input`, the
draft; and `isTyping`, the flag that is up while a webhook reply is awaited. One send cycle is:

1. **begin**: ignore a draft that trims to nothing. Otherwise append the user's trimmed
   message, clear the draft, raise the flag and append a bot placeholder marked `typing`.
2. **success**: replace the message whose id is the placeholder's by a finished bot message.
   Its text is `data.reply ?? "Sorry, I could not get a response."`.
3. **failure**: a `fetch` that throws, a non-ok status, a body that is not JSON, or a `null`
   body (reading `data.reply` then throws). Raise an error notification and filter out every
   `typing` message.

Both outcomes end by clearing the flag. Enter without Shift and the form's submit start a
send only while no reply is awaited.

Files and modules:

- `wrappers.dfy` (`Wrappers`): `Option`, standing for `undefined` and for a read that throws.
- `json.dfy` (`Json`): the JSON values a response body can parse to, the property read
  `v.reply` on them, and `??`.
- `text.dfy` (`Text`): `String.prototype.trim`, with the exact ECMAScript white-space set.
- `messages.dfy` (`Messages`): the `Message` record and the three list transformations
  (spread-append, `map` replace-by-id, `filter(!typing)`). It also holds the lemmas about them
  and the controller's invariant `Consistent`.
- `reply.dfy` (`Reply`): the exchange outcome and the reply rule.
- `chat.dfy` (`Chat`): the class `ChatController`, whose methods update the three fields as
  `handleSend`, `handleInputKeyDown`, the form's `onSubmit` and the textarea's `onChange` do.
  It ends with three end-to-end client scenarios.

`handleSend` waits twice, at `await fetch` and at `await response.json()`, and changes no
state between the two. The model therefore splits it in two. `HandleSend` is everything before
`await fetch`. `Settle` is the success, catch and `finally` code. The exchange in between
(lines 63-75 of `Chat.tsx`, both waits) is the `Outcome` parameter of `Settle`. Two ghost fields stand for things the component does not store:

- `pending`: the closure variable `tempBotMessageId`.
- `notices`: the number of `toast` calls.

The object invariant `Valid()` says:

- ids are unique;
- the `typing` messages are exactly `[pending]` while `isTyping` holds, and none otherwise.

From this, `AtMostOnePlaceholder` derives that at most one placeholder exists and none exists
when idle. `HandleSend` keeps the invariant only when called while idle, because
`handleSend` does not check `isTyping` itself. Both of its callers check it, so `KeyDown` and
`Submit` keep it unconditionally.

Two points about the reply and the notification:

- The component reads only `data.reply`, with `??`. It does not try `[0].output` or
  `message`, and it does not check that the reply is a string. So any value other than null
  or undefined is used as it is: a number, an object or the empty string. A bot message's
  `text` is therefore a JSON value in the model.
- The error toast says "Oops, something went wrong". The toast's text is not modelled.

## Model

| member | source | states |
|---|---|---|
| `Json.ReplyProperty` | src/components/Chat.tsx:78 | `data.reply` on a non-null parsed body: defined exactly when the body is an object with a `reply` key, and then it is that field's value |
| `Json.Coalesce` | src/components/Chat.tsx:78 | `x ?? d` yields `x` when it is neither null nor undefined, and `d` otherwise |
| `Text.IsSpace` | src/components/Chat.tsx:40 | the characters `trim` removes: the ECMAScript WhiteSpace and LineTerminator code points |
| `Text.TrimStart` | src/components/Chat.tsx:40 | dropping leading white space never lengthens the string and leaves it empty or starting with a non-space |
| `Text.TrimEnd` | src/components/Chat.tsx:40 | dropping trailing white space never lengthens the string and leaves it empty or ending with a non-space |
| `Text.TrimStartSuffix` | src/components/Chat.tsx:40 | what `TrimStart` keeps is a suffix of its input, and all it dropped is white space |
| `Text.TrimEndPrefix` | src/components/Chat.tsx:40 | what `TrimEnd` keeps is a prefix of its input, and all it dropped is white space |
| `Text.Trim` | src/components/Chat.tsx:40 | `input.trim()` is no longer than the input and neither starts nor ends with white space |
| `Text.TrimSlice` | src/components/Chat.tsx:46 | the trimmed text is a contiguous slice of the draft, and everything cut off on either side is white space |
| `Text.TrimEmptyIff` | src/components/Chat.tsx:40-42 | the guard `!input.trim()` fires exactly when the draft is empty or all white space |
| `Text.TrimIdempotent` | src/components/Chat.tsx:40 | a general property of the `trim` the guard applies (the component never trims twice): trimming trimmed text changes nothing |
| `Text.TrimPadded` | src/components/Chat.tsx:46 | a word padded with white space on both sides trims to the word |
| `Messages.UserMessage` | src/components/Chat.tsx:44-48 | the user's message `{id, text: input.trim(), sender: "user"}`, which is never typing |
| `Messages.Placeholder` | src/components/Chat.tsx:59 | the placeholder `{id, text: "", sender: "bot", typing: true}`, whose id is the only typing one |
| `Messages.BotMessage` | src/components/Chat.tsx:84 | the finished bot message `{id, text: botReply, sender: "bot"}`, with `typing` cleared |
| `Messages.ReplaceById` | src/components/Chat.tsx:81-87 | `prev.map` keeps the length; each position holds the new message if its id matches, and the old message otherwise |
| `Messages.DropTyping` | src/components/Chat.tsx:95 | `prev.filter(m => !m.typing)`: a message survives exactly when it was in the list and is not typing |
| `Messages.TypingIdsAppend` | src/components/Chat.tsx:50-60 | the typing ids of an appended list are the two parts' typing ids, in order |
| `Messages.BeginUniqueIds` | src/components/Chat.tsx:44-60 | appending the user message and the placeholder, with fresh distinct ids, keeps ids unique |
| `Messages.AtMostOnePlaceholder` | src/components/Chat.tsx:52-60 | under the controller's invariant, at most one message is typing, it is the awaited placeholder, and none is typing when idle |
| `Messages.ReplaceAt` | src/components/Chat.tsx:81-87 | under unique ids, replacing by id changes only the one position holding that id; everything else stays in place |
| `Messages.ReplaceClearsTyping` | src/components/Chat.tsx:82-86 | when the placeholder's id is the only typing id, replacing it by a finished message leaves no typing message |
| `Messages.ReplaceKeepsIds` | src/components/Chat.tsx:84 | the replacement carries the placeholder's id, so the set of ids and their uniqueness are unchanged |
| `Messages.TypingIdsOfDropTyping` | src/components/Chat.tsx:95 | after the failure filter no message is typing |
| `Messages.DropTypingAppend` | src/components/Chat.tsx:95 | the filter distributes over concatenation, so it keeps relative order |
| `Messages.DropTypingNoTyping` | src/components/Chat.tsx:95 | a list without typing messages passes the filter unchanged |
| `Messages.DropTypingSubsequence` | src/components/Chat.tsx:95 | the surviving messages are a subsequence of the old list, in their old relative order |
| `Messages.DropTypingKeepsUniqueIds` | src/components/Chat.tsx:95 | the filter keeps ids unique |
| `Messages.BeginConsistent` | src/components/Chat.tsx:50-60 | beginning a send from an idle, consistent list makes the new placeholder the one awaited |
| `Messages.ReplaceConsistent` | src/components/Chat.tsx:81-87 | settling with a reply turns a consistent busy list into a consistent idle one |
| `Messages.DropConsistent` | src/components/Chat.tsx:95 | settling with a failure always yields a consistent idle list |
| `Messages.SucceededCycle` | src/components/Chat.tsx:50-87 | a successful send appends exactly the user message and one finished bot message to the prior list |
| `Messages.FailedCycle` | src/components/Chat.tsx:50-95 | a failed send from idle leaves the prior list plus the user message, in order |
| `Reply.ReplyOf` | src/components/Chat.tsx:75-78 | a null body has no reply (the read throws); any other body's reply is never null, and a reply other than the fallback is the body's `reply` field |
| `Reply.Resolution` | src/components/Chat.tsx:71-78 | an exchange takes the failure path exactly when it failed or its body is `null` |
| `Reply.ReplyFieldUsed` | src/components/Chat.tsx:78 | a `reply` field that is not null is used as it is, whatever its JSON type |
| `Reply.EmptyReplyKept` | src/components/Chat.tsx:78 | an empty-string `reply` is kept; `??` does not treat it as missing |
| `Reply.FallbackOtherwise` | src/components/Chat.tsx:78 | every other non-null body yields exactly "Sorry, I could not get a response." |
| `Reply.NullBodyFails` | src/components/Chat.tsx:75-78 | a body that parses to `null` takes the failure path |
| `Chat.ChatController.Valid` | src/components/Chat.tsx:52-60 | the invariant: ids are unique, and the typing messages are exactly the awaited placeholder while `isTyping` holds, and none otherwise |
| `Chat.ChatController.constructor` | src/components/Chat.tsx:17-20 | the component starts with no messages, an empty draft, the flag down and the invariant holding |
| `Chat.ChatController.SetInput` | src/components/Chat.tsx:178 | typing into the textarea replaces the draft and changes nothing else |
| `Chat.ChatController.HandleSend` | src/components/Chat.tsx:39-60 | an all-white-space draft changes nothing. Otherwise, with the trimmed text, the list becomes the old list plus the user message and the placeholder, the draft is cleared and the flag is raised. Ids stay unique, and the invariant is kept when called while idle |
| `Chat.ChatController.KeyDown` | src/components/Chat.tsx:102-109 | default is prevented exactly for Enter without Shift. That key begins a send unless a reply is awaited; every other case leaves the state unchanged |
| `Chat.ChatController.Submit` | src/components/Chat.tsx:168-173 | submit always prevents the default page reload; it begins a send when idle, and while a reply is awaited it changes nothing |
| `Chat.ChatController.Settle` | src/components/Chat.tsx:71-98 | success replaces the placeholder by id with the finished bot message. Failure raises one notification and filters out the typing messages. Both clear the flag, keep the draft and restore the idle invariant |
| `Chat.SuccessfulExchange` | src/components/Chat.tsx:39-98 | sending "  hello  " and getting `{"reply": "world"}` back ends with the user's "hello" and the bot's "world", idle |
| `Chat.FailedExchange` | src/components/Chat.tsx:39-98 | sending "  hello  " and failing ends with only the user's "hello", idle, after exactly one notification |
| `Chat.SecondSendRejected` | src/components/Chat.tsx:102-109 | while a reply is awaited, both Enter and submit are rejected, not queued: two messages, draft unchanged |

## Left out

- The `fetch` call, its URL, headers and request body, and JSON decoding of the response. They
  are foreign I/O, so one exchange is the `Outcome` parameter of `Settle`: `Ok(data)` with the
  parsed body, or `Failed`. JSON numbers are modelled as reals.
- `crypto.randomUUID`: foreign randomness. The two fresh ids are method parameters, required
  to be distinct and absent from `messages`.
- Async interleaving and React's batched, functional `setState`: the begin and settle steps are
  atomic. `Settle` requires that a reply is awaited and that its id is the awaited placeholder,
  which is how the component sequences them.
- `toast`: a presentation call. The model counts notifications in the ghost field `notices`
  and does not model their title or text.
- Dark mode, scrolling into view, the JSX rendering and `TypingAnimation`: presentation only.
- The `disabled` attributes (`Chat.tsx` lines 183 and 188) block edits, keys and submit
  clicks while a reply is awaited, and the button also while the draft trims to nothing. The
  model does not gate `SetInput`, `KeyDown` or `Submit` on them. So it allows more event
  sequences than the component, for example a draft typed while busy, as in
  `SecondSendRejected`. Every property above holds a fortiori for the component's smaller set
  of sequences.
- `src/pages/Index.tsx`: a static page layout with no logic.
- Dafny strings are sequences of Unicode scalar values, JavaScript strings of UTF-16 code
  units. A draft holding a lone surrogate cannot be represented in the model. On every string
  the model can represent, `Trim` gives the same result as `trim`.
- `Message.typing` is a `bool`, with `false` standing for the absent optional field. The
  component only tests its truthiness.
