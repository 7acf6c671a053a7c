/**
 * The conversation-history query of `GET /messages/:userId`: every stored
 * message between the caller and the other user, in either direction,
 * ordered by `createdAt` ascending.
 */
module History {
  import opened Wrappers
  import opened Json
  import opened Domain

  /** The query's `$or`: sent by `me` to `other`, or by `other` to `me`. */
  predicate InConversation(m: Message, me: UserId, other: UserId) {
    || (m.sender == me && m.recipient == Str(other))
    || (m.sender == other && m.recipient == Str(me))
  }

  predicate SortedByCreated(ms: seq<Message>) {
    forall i, j :: 0 <= i < j < |ms| ==> ms[i].createdAt <= ms[j].createdAt
  }

  /** `Message.find({$or: ...})`: each stored message of the conversation,
      as often as it is stored, and nothing else. */
  function Conversation(store: seq<Message>, me: UserId, other: UserId): (r: seq<Message>)
    ensures forall m :: multiset(r)[m] == (if InConversation(m, me, other) then multiset(store)[m] else 0)
    decreases |store|
  {
    if |store| == 0 then
      []
    else
      var init := store[..|store| - 1];
      var m := store[|store| - 1];
      assert store == init + [m];
      var r := Conversation(init, me, other);
      if InConversation(m, me, other) then r + [m] else r
  }

  /** Inserts `m` into an ordered list just before the first message not older than it. */
  function InsertByCreated(m: Message, ms: seq<Message>): (r: seq<Message>)
    requires SortedByCreated(ms)
    ensures SortedByCreated(r)
    ensures multiset(r) == multiset(ms) + multiset{m}
    ensures forall i :: 0 <= i < |r| ==> r[i] == m || r[i] in ms
  {
    if |ms| == 0 then
      [m]
    else if m.createdAt <= ms[0].createdAt then
      [m] + ms
    else
      var rest := InsertByCreated(m, ms[1..]);
      InsertBehindHead(m, ms, rest);
      [ms[0]] + rest
  }

  /** The step of `InsertByCreated` that keeps the head in front. */
  lemma InsertBehindHead(m: Message, ms: seq<Message>, rest: seq<Message>)
    requires |ms| > 0 && SortedByCreated(ms) && ms[0].createdAt <= m.createdAt
    requires SortedByCreated(rest)
    requires multiset(rest) == multiset(ms[1..]) + multiset{m}
    requires forall i :: 0 <= i < |rest| ==> rest[i] == m || rest[i] in ms[1..]
    ensures SortedByCreated([ms[0]] + rest)
    ensures multiset([ms[0]] + rest) == multiset(ms) + multiset{m}
    ensures forall i :: 0 <= i < |[ms[0]] + rest| ==> ([ms[0]] + rest)[i] == m || ([ms[0]] + rest)[i] in ms
  {
    assert ms == [ms[0]] + ms[1..];
    assert forall x :: x in ms[1..] ==> ms[0].createdAt <= x.createdAt;
    var r := [ms[0]] + rest;
    assert forall i :: 1 <= i < |r| ==> r[i] == rest[i - 1];
  }

  /** `.sort({createdAt: 1})`: the same messages, oldest first. Messages with
      equal timestamps may come in any order in the database; this model puts
      each message in front of the equal-timestamp messages stored after it,
      so ties keep their stored order (`TiesKeepStoredOrder`). */
  function SortByCreated(ms: seq<Message>): (r: seq<Message>)
    ensures SortedByCreated(r)
    ensures multiset(r) == multiset(ms)
  {
    if |ms| == 0 then
      []
    else
      assert ms == [ms[0]] + ms[1..];
      InsertByCreated(ms[0], SortByCreated(ms[1..]))
  }

  /** The messages of `ms` stamped `t`, in their order in `ms`. */
  function AtTime(ms: seq<Message>, t: int): (r: seq<Message>)
    ensures forall m :: m in r <==> m in ms && m.createdAt == t
  {
    if |ms| == 0 then
      []
    else
      var rest := AtTime(ms[1..], t);
      assert forall m :: m in ms <==> m == ms[0] || m in ms[1..];
      if ms[0].createdAt == t then [ms[0]] + rest else rest
  }

  /** Inserting `m` puts it in front of the messages with its timestamp. */
  lemma {:induction false} InsertAtTime(m: Message, ms: seq<Message>, t: int)
    requires SortedByCreated(ms)
    ensures AtTime(InsertByCreated(m, ms), t) == (if m.createdAt == t then [m] else []) + AtTime(ms, t)
    decreases |ms|
  {
    if |ms| == 0 {
      assert [m][1..] == [];
    } else if m.createdAt <= ms[0].createdAt {
      assert ([m] + ms)[1..] == ms;
    } else {
      var rest := InsertByCreated(m, ms[1..]);
      InsertAtTime(m, ms[1..], t);
      assert ([ms[0]] + rest)[1..] == rest;
    }
  }

  /** Messages with the same timestamp come out in stored order: for every
      time `t`, the sorted list and the store hold the messages stamped `t`
      in the same order. */
  lemma {:induction false} TiesKeepStoredOrder(ms: seq<Message>, t: int)
    ensures AtTime(SortByCreated(ms), t) == AtTime(ms, t)
    decreases |ms|
  {
    if |ms| > 0 {
      TiesKeepStoredOrder(ms[1..], t);
      InsertAtTime(ms[0], SortByCreated(ms[1..]), t);
    }
  }

  /** The history between `me` and `other`: exactly the stored messages of
      their conversation, each as often as it is stored, oldest first. */
  function ConversationHistory(store: seq<Message>, me: UserId, other: UserId): (r: seq<Message>)
    ensures SortedByCreated(r)
    ensures forall m :: multiset(r)[m] == (if InConversation(m, me, other) then multiset(store)[m] else 0)
    ensures forall m :: m in r <==> m in store && InConversation(m, me, other)
  {
    SortByCreated(Conversation(store, me, other))
  }

  /** The reply of `GET /messages/:userId`. */
  datatype Reply = Unauthorized | ServerError | Found(messages: seq<Message>)

  /** The route handler. A missing or empty `token` cookie is answered 401,
      but a token `jwt.verify` rejects lands in the handler's `catch` and is
      answered 500, like a failed query. `verify` stands for `jwt.verify`;
      `queryOk` says whether `Message.find` succeeded (it throws, for one,
      when `:userId` cannot be cast to an ObjectId). A verified caller whose
      query succeeds gets exactly the conversation history, each stored
      message as often as it is stored, oldest first. */
  function MessagesRoute(token: Option<string>, other: UserId, store: seq<Message>,
                         verify: string -> Option<Identity>, queryOk: bool): (r: Reply)
    ensures token.None? || token == Some("") ==> r == Unauthorized
    ensures token.Some? && token.value != "" && verify(token.value).None? ==> r == ServerError
    ensures token.Some? && token.value != "" && verify(token.value).Some? && !queryOk ==> r == ServerError
    ensures token.Some? && token.value != "" && verify(token.value).Some? && queryOk ==>
      r == Found(ConversationHistory(store, verify(token.value).value.userId, other))
    ensures r.Found? ==>
      && token.Some? && verify(token.value).Some?
      && var me := verify(token.value).value.userId;
      && SortedByCreated(r.messages)
      && (forall m :: multiset(r.messages)[m] == (if InConversation(m, me, other) then multiset(store)[m] else 0))
      && (forall m :: m in r.messages <==> m in store && InConversation(m, me, other))
  {
    if token.None? || token.value == "" then
      Unauthorized
    else
      match verify(token.value)
      case None => ServerError
      case Some(id) =>
        if queryOk then Found(ConversationHistory(store, id.userId, other)) else ServerError
  }
}
