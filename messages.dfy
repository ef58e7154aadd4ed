/** The `Message` record of the chat and the three list transformations `handleSend`
    applies to the conversation: spread-append, `map` replace-by-id and `filter(!typing)`. */
module Messages {
  import opened Json

  datatype Sender = User | Bot

  /** `{id, text, sender, typing?}`. `typing` false stands for the absent field (only its
      truthiness is ever read). `text` is a JSON value because the bot's text is whatever
      the webhook's `reply` field held; the user's text and the placeholder's are strings. */
  datatype Message = Message(id: string, text: Json, sender: Sender, typing: bool)

  /** The message appended for the user's trimmed draft: never a typing message. */
  function UserMessage(id: string, text: string): (m: Message)
    ensures TypingIds([m]) == []
  {
    Message(id, JString(text), User, false)
  }

  /** The temporary bot message shown while a reply is awaited: the one typing id. */
  function Placeholder(id: string): (m: Message)
    ensures TypingIds([m]) == [id]
  {
    Message(id, JString(""), Bot, true)
  }

  /** The finished bot message that replaces the placeholder: no longer typing. */
  function BotMessage(id: string, text: Json): (m: Message)
    ensures TypingIds([m]) == []
  {
    Message(id, text, Bot, false)
  }

  function Ids(ms: seq<Message>): set<string> {
    set m | m in ms :: m.id
  }

  /** No two messages share an id (React keys them by id). */
  predicate UniqueIds(ms: seq<Message>) {
    forall i, j :: 0 <= i < j < |ms| ==> ms[i].id != ms[j].id
  }

  /** The ids of the messages marked `typing`, in list order. */
  function TypingIds(ms: seq<Message>): seq<string> {
    if ms == [] then [] else (if ms[0].typing then [ms[0].id] else []) + TypingIds(ms[1..])
  }

  /** `prev.map(msg => msg.id === id ? m : msg)`. */
  function ReplaceById(ms: seq<Message>, id: string, m: Message): (r: seq<Message>)
    ensures |r| == |ms|
    ensures forall k :: 0 <= k < |ms| ==> r[k] == if ms[k].id == id then m else ms[k]
  {
    if ms == [] then [] else [if ms[0].id == id then m else ms[0]] + ReplaceById(ms[1..], id, m)
  }

  /** `prev.filter(m => !m.typing)`: exactly the messages that are not typing survive. */
  function DropTyping(ms: seq<Message>): (r: seq<Message>)
    ensures |r| <= |ms|
    ensures forall m :: m in r <==> m in ms && !m.typing
  {
    if ms == [] then [] else (if ms[0].typing then [] else [ms[0]]) + DropTyping(ms[1..])
  }

  /** `a` is `b` with some elements left out, the rest in the same order. */
  ghost predicate Subsequence(a: seq<Message>, b: seq<Message>)
    decreases |b|
  {
    if a == [] then true
    else if b == [] then false
    else (a[0] == b[0] && Subsequence(a[1..], b[1..])) || Subsequence(a, b[1..])
  }

  // ---- append ----

  lemma {:induction false} TypingIdsAppend(a: seq<Message>, b: seq<Message>)
    ensures TypingIds(a + b) == TypingIds(a) + TypingIds(b)
  {
    if a == [] {
      assert a + b == b;
    } else {
      assert (a + b)[0] == a[0] && (a + b)[1..] == a[1..] + b;
      TypingIdsAppend(a[1..], b);
    }
  }

  /** Appending two messages with fresh, distinct ids keeps the ids unique. */
  lemma BeginUniqueIds(ms: seq<Message>, u: Message, p: Message)
    requires UniqueIds(ms)
    requires u.id !in Ids(ms) && p.id !in Ids(ms) && u.id != p.id
    ensures UniqueIds(ms + [u, p])
  {
    var r := ms + [u, p];
    forall i, j | 0 <= i < j < |r| ensures r[i].id != r[j].id {
      if j == |ms| { assert ms[i] in ms; }
      else if j == |ms| + 1 && i < |ms| { assert ms[i] in ms; }
    }
  }

  // ---- typing messages ----

  lemma {:induction false} TypingIdsHas(ms: seq<Message>, i: nat)
    requires i < |ms| && ms[i].typing
    ensures ms[i].id in TypingIds(ms)
  {
    if i > 0 { TypingIdsHas(ms[1..], i - 1); }
  }

  lemma {:induction false} TypingIdsTwo(ms: seq<Message>, i: nat, j: nat)
    requires i < j < |ms| && ms[i].typing && ms[j].typing
    ensures |TypingIds(ms)| >= 2
  {
    if i == 0 {
      TypingIdsHas(ms[1..], j - 1);
    } else {
      TypingIdsTwo(ms[1..], i - 1, j - 1);
    }
  }

  /** The controller's invariant on the list: when the typing ids are `[]` or `[p]`, at
      most one message is typing, it has id `p`, and with `[]` none is. */
  lemma AtMostOnePlaceholder(ms: seq<Message>, busy: bool, p: string)
    requires TypingIds(ms) == if busy then [p] else []
    ensures forall i, j :: 0 <= i < |ms| && 0 <= j < |ms| && ms[i].typing && ms[j].typing ==> i == j
    ensures forall i :: 0 <= i < |ms| && ms[i].typing ==> busy && ms[i].id == p
  {
    forall i, j | 0 <= i < |ms| && 0 <= j < |ms| && ms[i].typing && ms[j].typing ensures i == j {
      if i < j { TypingIdsTwo(ms, i, j); }
      else if j < i { TypingIdsTwo(ms, j, i); }
    }
    forall i | 0 <= i < |ms| && ms[i].typing ensures busy && ms[i].id == p {
      TypingIdsHas(ms, i);
    }
  }

  // ---- replace by id ----

  /** Under unique ids, replacing by the id of position `k` changes position `k` only. */
  lemma ReplaceAt(ms: seq<Message>, k: nat, m: Message)
    requires UniqueIds(ms) && k < |ms|
    ensures ReplaceById(ms, ms[k].id, m) == ms[..k] + [m] + ms[k + 1..]
  {
    var r := ReplaceById(ms, ms[k].id, m);
    var e := ms[..k] + [m] + ms[k + 1..];
    assert |r| == |e|;
    forall i | 0 <= i < |r| ensures r[i] == e[i] {
      if i < k { assert ms[i].id != ms[k].id; }
      else if i > k { assert ms[i].id != ms[k].id; }
    }
  }

  /** Replacing every message with id `p` by a non-typing message removes all typing
      messages, provided `p` is the only id that is typing. */
  lemma {:induction false} ReplaceClearsTyping(ms: seq<Message>, p: string, m: Message)
    requires forall x :: x in TypingIds(ms) ==> x == p
    requires !m.typing
    ensures TypingIds(ReplaceById(ms, p, m)) == []
  {
    if ms != [] {
      var r := ReplaceById(ms, p, m);
      assert r[1..] == ReplaceById(ms[1..], p, m);
      assert TypingIds(ms) == (if ms[0].typing then [ms[0].id] else []) + TypingIds(ms[1..]);
      assert forall x :: x in TypingIds(ms[1..]) ==> x in TypingIds(ms);
      ReplaceClearsTyping(ms[1..], p, m);
      assert r[0] == if ms[0].id == p then m else ms[0];
      if ms[0].typing { assert ms[0].id in TypingIds(ms); }
      assert !r[0].typing;
      assert TypingIds(r) == TypingIds(r[1..]);
    }
  }

  /** Replacing by id with a message of that same id keeps the ids and their uniqueness. */
  lemma ReplaceKeepsIds(ms: seq<Message>, p: string, m: Message)
    requires UniqueIds(ms) && m.id == p
    ensures UniqueIds(ReplaceById(ms, p, m))
    ensures Ids(ReplaceById(ms, p, m)) == Ids(ms)
  {
    var r := ReplaceById(ms, p, m);
    assert forall k :: 0 <= k < |ms| ==> r[k].id == ms[k].id;
    forall x | x in Ids(r) ensures x in Ids(ms) {
      var k :| 0 <= k < |r| && r[k].id == x;
      assert ms[k] in ms;
    }
    forall x | x in Ids(ms) ensures x in Ids(r) {
      var k :| 0 <= k < |ms| && ms[k].id == x;
      assert r[k] in r;
    }
  }

  // ---- filter ----

  lemma TypingIdsOfDropTyping(ms: seq<Message>)
    ensures TypingIds(DropTyping(ms)) == []
  {
    var r := DropTyping(ms);
    if TypingIds(r) != [] {
      var x := TypingIds(r)[0];
      TypingIdsMember(r, x);
      assert false;
    }
  }

  lemma {:induction false} TypingIdsMember(ms: seq<Message>, x: string)
    requires x in TypingIds(ms)
    ensures exists i :: 0 <= i < |ms| && ms[i].typing && ms[i].id == x
  {
    if !(ms[0].typing && ms[0].id == x) {
      TypingIdsMember(ms[1..], x);
      var i :| 0 <= i < |ms[1..]| && ms[1..][i].typing && ms[1..][i].id == x;
      assert ms[i + 1] == ms[1..][i];
    }
  }

  /** Filtering distributes over concatenation: together with the one-element case this
      pins down `filter` completely, order included. */
  lemma {:induction false} DropTypingAppend(a: seq<Message>, b: seq<Message>)
    ensures DropTyping(a + b) == DropTyping(a) + DropTyping(b)
  {
    if a == [] {
      assert a + b == b;
    } else {
      assert (a + b)[0] == a[0] && (a + b)[1..] == a[1..] + b;
      DropTypingAppend(a[1..], b);
    }
  }

  /** A list without typing messages passes the filter unchanged. */
  lemma {:induction false} DropTypingNoTyping(ms: seq<Message>)
    requires TypingIds(ms) == []
    ensures DropTyping(ms) == ms
  {
    if ms != [] {
      assert !ms[0].typing;
      DropTypingNoTyping(ms[1..]);
    }
  }

  /** The survivors keep their relative order. */
  lemma {:induction false} DropTypingSubsequence(ms: seq<Message>)
    ensures Subsequence(DropTyping(ms), ms)
  {
    if ms != [] {
      DropTypingSubsequence(ms[1..]);
      var r := DropTyping(ms);
      if !ms[0].typing {
        assert r == [ms[0]] + DropTyping(ms[1..]);
        assert r[0] == ms[0] && r[1..] == DropTyping(ms[1..]);
        assert Subsequence(r[1..], ms[1..]);
      } else {
        assert r == DropTyping(ms[1..]);
      }
    }
  }

  /** Uniqueness of ids, one message at a time. */
  lemma UniqueIdsCons(m: Message, t: seq<Message>)
    ensures UniqueIds([m] + t) <==> m.id !in Ids(t) && UniqueIds(t)
  {
    var r := [m] + t;
    assert forall k :: 0 <= k < |t| ==> r[k + 1] == t[k];
    if m.id in Ids(t) {
      var k :| 0 <= k < |t| && t[k].id == m.id;
      assert r[0].id == r[k + 1].id;
    }
  }

  /** Filtering keeps the ids unique. */
  lemma {:induction false} DropTypingKeepsUniqueIds(ms: seq<Message>)
    requires UniqueIds(ms)
    ensures UniqueIds(DropTyping(ms))
  {
    if ms != [] {
      assert ms == [ms[0]] + ms[1..];
      UniqueIdsCons(ms[0], ms[1..]);
      DropTypingKeepsUniqueIds(ms[1..]);
      var t := DropTyping(ms[1..]);
      if !ms[0].typing {
        assert Ids(t) <= Ids(ms[1..]);
        UniqueIdsCons(ms[0], t);
      }
    }
  }

  // ---- the controller's invariant ----

  /** Ids are unique, and the typing messages are exactly the placeholder `p` while a
      reply is awaited (`busy`) and none otherwise. */
  predicate Consistent(ms: seq<Message>, busy: bool, p: string) {
    UniqueIds(ms) && TypingIds(ms) == if busy then [p] else []
  }

  /** Beginning a send from an idle list, with fresh ids, makes the new placeholder the
      one awaited. */
  lemma BeginConsistent(ms: seq<Message>, u: Message, p: string, q: string)
    requires Consistent(ms, false, q) && !u.typing
    requires u.id !in Ids(ms) && p !in Ids(ms) && u.id != p
    ensures Consistent(ms + [u, Placeholder(p)], true, p)
  {
    var tail := [u, Placeholder(p)];
    BeginUniqueIds(ms, u, Placeholder(p));
    TypingIdsAppend(ms, tail);
    assert tail[1..] == [Placeholder(p)];
    assert TypingIds(tail[1..]) == [p] by { assert tail[1..][1..] == []; }
  }

  /** Replacing the awaited placeholder by a finished message of the same id leaves an
      idle list. */
  lemma ReplaceConsistent(ms: seq<Message>, p: string, m: Message, q: string)
    requires Consistent(ms, true, p) && m.id == p && !m.typing
    ensures Consistent(ReplaceById(ms, p, m), false, q)
  {
    ReplaceClearsTyping(ms, p, m);
    ReplaceKeepsIds(ms, p, m);
  }

  /** Filtering out the typing messages always leaves an idle list. */
  lemma DropConsistent(ms: seq<Message>, q: string)
    requires UniqueIds(ms)
    ensures Consistent(DropTyping(ms), false, q)
  {
    TypingIdsOfDropTyping(ms);
    DropTypingKeepsUniqueIds(ms);
  }

  // ---- a whole send cycle ----

  /** A send that succeeds leaves the earlier messages, the user's message and one
      finished bot message: exactly one bot message per submission. */
  lemma SucceededCycle(ms: seq<Message>, u: Message, p: string, text: Json)
    requires UniqueIds(ms) && u.id !in Ids(ms) && p !in Ids(ms) && u.id != p
    ensures ReplaceById(ms + [u, Placeholder(p)], p, BotMessage(p, text)) == ms + [u, BotMessage(p, text)]
  {
    var sent := ms + [u, Placeholder(p)];
    BeginUniqueIds(ms, u, Placeholder(p));
    ReplaceAt(sent, |ms| + 1, BotMessage(p, text));
    assert sent[..|ms| + 1] == ms + [u];
  }

  /** A send that fails from an idle list leaves the earlier messages and the user's
      message, in order: the placeholder is the only message removed. */
  lemma FailedCycle(ms: seq<Message>, u: Message, p: string)
    requires TypingIds(ms) == [] && !u.typing
    ensures DropTyping(ms + [u, Placeholder(p)]) == ms + [u]
  {
    DropTypingAppend(ms, [u, Placeholder(p)]);
    DropTypingNoTyping(ms);
    assert [u, Placeholder(p)][1..] == [Placeholder(p)];
    assert [Placeholder(p)][1..] == [];
  }
}
