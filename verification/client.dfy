/**
 * The chat page's state and the handlers client/src/Chat.jsx runs on it.
 * React state updates are applied at once: each handler is a function from
 * the page state (and what the handler was given) to the next page state.
 * The WebSocket, the HTTP calls and the clock are parameters.
 */
module ChatClient {
  import opened Wrappers
  import opened Json
  import opened Strings
  import opened JsObject
  import Domain

  /** One `{userId, username}` element of a presence frame's `online` array. */
  datatype Presence = Presence(userId: string, username: string)

  /** One user document of the `/people` reply. */
  datatype Person = Person(id: string, username: string)

  /** A message's `_id`: the database id of a message the server sent, or the
      `Date.now()` placeholder of the copy the page adds right after sending. */
  datatype MsgKey = StoredId(id: Domain.MsgId) | LocalId(millis: int)

  /** A message object in the `messages` state. `sender` and `recipient` are
      the JSON values the page received (or wrote, for a local copy). */
  datatype ChatMessage = ChatMessage(
    key: MsgKey,
    sender: JsValue,
    recipient: JsValue,
    text: JsValue,
    createdAt: int)

  /** A frame after `JSON.parse`: the `online` array when the object has that
      key, whether it has a `text` key, and the message fields it carries. */
  datatype Incoming = Incoming(online: Option<seq<Presence>>, hasText: bool, message: ChatMessage)

  /** The `ws` state: no socket yet, or a socket in one of its ready states. */
  datatype Socket = NoSocket | Connecting | Open | Closing | Closed

  /** The chat page's state. `me` is the `id` of the logged-in user;
      `selected` is `selectedUserId` (`None` for `null`); `draft` is
      `newMessageText`. */
  datatype Client = Client(
    me: string,
    socket: Socket,
    online: Dict<string>,
    offline: Dict<Person>,
    selected: Option<string>,
    draft: string,
    messages: seq<ChatMessage>)

  /** The object `sendMessage` passes to `ws.send` (as JSON). */
  datatype Outbound = Outbound(recipient: string, text: string)

  /** The page after `sendMessage`, and the frames it sent. */
  datatype Sent = Sent(client: Client, frames: seq<Outbound>)

  /** One element of `allPeople`, the sidebar's contact list. */
  datatype Listed = Listed(id: string, username: string, online: bool)

  /** `v === selectedUserId`: strict equality against a string, or against
      `null` when no conversation is open. */
  predicate IsSelected(v: JsValue, selected: Option<string>) {
    match selected
    case None => v == Null
    case Some(u) => v == Str(u)
  }

  /** The message belongs to the open conversation. */
  predicate InOpenConversation(m: ChatMessage, selected: Option<string>) {
    IsSelected(m.sender, selected) || IsSelected(m.recipient, selected)
  }

  /** `showOnlinePeople`: the roster maps each user id to the username of its
      last entry in the array, lists only ids the array names, and lists
      them in the order of their first entries. */
  function ShowOnlinePeople(ps: seq<Presence>): (r: Dict<string>)
    ensures UniqueKeys(r)
    ensures Keys(r) == FirstOccurrences(PresenceIds(ps))
    ensures forall u :: (forall i :: 0 <= i < |ps| ==> ps[i].userId != u) ==> Get(r, u) == None
    ensures forall i :: 0 <= i < |ps| && (forall j :: i < j < |ps| ==> ps[j].userId != ps[i].userId) ==>
      Get(r, ps[i].userId) == Some(ps[i].username)
  {
    var es := seq(|ps|, i requires 0 <= i < |ps| => (ps[i].userId, ps[i].username));
    assert forall i :: 0 <= i < |ps| ==> es[i].0 == ps[i].userId && es[i].1 == ps[i].username;
    assert forall i :: 0 <= i < |ps| && (forall j :: i < j < |ps| ==> ps[j].userId != ps[i].userId) ==>
      IsLastOfKey(es, i);
    FromEntriesOrder(es);
    assert Keys(es) == PresenceIds(ps);
    FromEntries(es)
  }

  /** The user ids of a presence array, in array order. */
  function PresenceIds(ps: seq<Presence>): (ids: seq<string>)
    ensures |ids| == |ps| && forall i :: 0 <= i < |ps| ==> ids[i] == ps[i].userId
  {
    seq(|ps|, i requires 0 <= i < |ps| => ps[i].userId)
  }

  /** The listener logic of `handleMessage`, given the value of
      `selectedUserId` the listener reads (`seen`). A frame with an `online`
      key replaces the roster and nothing else, even when it also has a
      `text` key. Otherwise a frame with a `text` key is appended to the
      messages exactly when its sender or its recipient is `seen`; any other
      frame changes nothing. */
  function HandleMessageSeeing(c: Client, f: Incoming, seen: Option<string>): (r: Client)
    ensures f.online.Some? ==> r == c.(online := ShowOnlinePeople(f.online.value))
    ensures f.online.None? ==> r.(messages := c.messages) == c
    ensures f.online.None? ==>
      r.messages == if f.hasText && InOpenConversation(f.message, seen)
                    then c.messages + [f.message] else c.messages
  {
    match f.online
    case Some(ps) => c.(online := ShowOnlinePeople(ps))
    case None =>
      if f.hasText && InOpenConversation(f.message, seen) then
        c.(messages := c.messages + [f.message])
      else
        c
  }

  /** The `selectedUserId` the `message` listener reads. The listener is
      registered by `connectToWs`, which only the mount effect and the
      reconnect timer call, both holding the first render's closures; in the
      first render nothing is selected. */
  const MountSelection: Option<string> := None

  /** `handleMessage` as the page runs it: the listener compares against the
      selection of the first render, so a message frame is shown only when
      its sender or recipient is `null`. */
  function HandleMessageAsWritten(c: Client, f: Incoming): (r: Client)
    ensures f.online.Some? ==> r == c.(online := ShowOnlinePeople(f.online.value))
    ensures f.online.None? && f.message.sender != Null && f.message.recipient != Null ==> r == c
  {
    HandleMessageSeeing(c, f, MountSelection)
  }

  /** `handleMessage` as its comparison intends: against the conversation
      open at the time the frame arrives. */
  function HandleMessage(c: Client, f: Incoming): (r: Client)
    ensures f.online.Some? ==> r == c.(online := ShowOnlinePeople(f.online.value))
    ensures f.online.None? ==> r.(messages := c.messages) == c
    ensures f.online.None? ==>
      r.messages == if f.hasText && InOpenConversation(f.message, c.selected)
                    then c.messages + [f.message] else c.messages
  {
    HandleMessageSeeing(c, f, c.selected)
  }

  /** The discrepancy on one input: with the conversation with `b` open, a
      message from `b` to `a` is dropped by the listener as written and shown
      by the intended handler. */
  lemma StaleListenerDropsMessage()
    ensures var c := Client("a", Open, [], [], Some("b"), "", []);
      var m := ChatMessage(StoredId(7), Str("b"), Str("a"), Str("hi"), 0);
      var f := Incoming(None, true, m);
      && HandleMessageAsWritten(c, f).messages == []
      && HandleMessage(c, f).messages == [m]
  {
  }

  /** The people the `/people` effect keeps: everyone but me and the users
      the roster lists, in reply order. */
  function KeepOffline(people: seq<Person>, me: string, online: Dict<string>): (r: seq<Person>)
    ensures forall p :: p in r <==> p in people && p.id != me && !HasKey(online, p.id)
  {
    if |people| == 0 then
      []
    else
      var rest := KeepOffline(people[1..], me, online);
      assert forall p :: p in people <==> p == people[0] || p in people[1..];
      if people[0].id != me && !HasKey(online, people[0].id) then [people[0]] + rest else rest
  }

  /** The filter keeps reply order: what it keeps of `a` comes before what
      it keeps of `b`. */
  lemma {:induction false} KeepOfflineAppend(a: seq<Person>, b: seq<Person>, me: string, online: Dict<string>)
    ensures KeepOffline(a + b, me, online) == KeepOffline(a, me, online) + KeepOffline(b, me, online)
    decreases |a|
  {
    if |a| == 0 {
      assert a + b == b;
    } else {
      assert (a + b)[1..] == a[1..] + b;
      KeepOfflineAppend(a[1..], b, me, online);
    }
  }

  /** One user document is kept exactly when it is neither me nor online. */
  lemma KeepOfflineOne(p: Person, me: string, online: Dict<string>)
    ensures KeepOffline([p], me, online) == if p.id != me && !HasKey(online, p.id) then [p] else []
  {
    assert [p][1..] == [];
  }

  /** The `/people` effect's update of `offlinePeople`: every user of the
      reply who is neither me nor in the roster, keyed by id in reply order,
      each key holding a user document with that id, and no one else. */
  function OfflinePeople(people: seq<Person>, me: string, online: Dict<string>): (r: Dict<Person>)
    ensures UniqueKeys(r)
    ensures Keys(r) == FirstOccurrences(PersonIds(KeepOffline(people, me, online)))
    ensures forall i :: 0 <= i < |people| && people[i].id != me && !HasKey(online, people[i].id) ==>
      HasKey(r, people[i].id)
    ensures forall k :: HasKey(r, k) ==>
      && k != me
      && !HasKey(online, k)
      && Get(r, k).value.id == k
      && Get(r, k).value in people
  {
    var kept := KeepOffline(people, me, online);
    KeyedByIdCovers(kept);
    KeyedByIdFrom(kept);
    FromEntriesOrder(KeyedById(kept));
    assert Keys(KeyedById(kept)) == PersonIds(kept);
    FromEntries(KeyedById(kept))
  }

  /** The ids of a list of user documents, in list order. */
  function PersonIds(ps: seq<Person>): (ids: seq<string>)
    ensures |ids| == |ps| && forall i :: 0 <= i < |ps| ==> ids[i] == ps[i].id
  {
    seq(|ps|, i requires 0 <= i < |ps| => ps[i].id)
  }

  /** The `[p._id, p]` entries the `forEach` assigns. */
  function KeyedById(ps: seq<Person>): (es: seq<(string, Person)>)
    ensures |es| == |ps| && forall i :: 0 <= i < |ps| ==> es[i] == (ps[i].id, ps[i])
  {
    seq(|ps|, i requires 0 <= i < |ps| => (ps[i].id, ps[i]))
  }

  /** Everyone assigned is present under their id. */
  lemma KeyedByIdCovers(ps: seq<Person>)
    ensures forall p :: p in ps ==> HasKey(FromEntries(KeyedById(ps)), p.id)
  {
    var es := KeyedById(ps);
    forall p | p in ps
      ensures HasKey(FromEntries(es), p.id)
    {
      var j :| 0 <= j < |ps| && ps[j] == p;
      FromEntriesHasEveryKey(es, j);
    }
  }

  /** Every key holds one of the assigned people, under that person's id. */
  lemma KeyedByIdFrom(ps: seq<Person>)
    ensures var r := FromEntries(KeyedById(ps));
      forall k :: HasKey(r, k) ==> Get(r, k).value.id == k && Get(r, k).value in ps
  {
    var es := KeyedById(ps);
    var r := FromEntries(es);
    forall k | HasKey(r, k)
      ensures Get(r, k).value.id == k && Get(r, k).value in ps
    {
      var j :| 0 <= j < |es| && es[j] == (k, Get(r, k).value);
      assert ps[j] in ps;
    }
  }

  /** `sendMessage`. A blank draft or no selected user (`null` or the empty
      id) changes nothing. Otherwise, on an open socket, the untrimmed draft
      goes to the selected user, a local copy stamped with the current time
      and sent by me is appended, and the draft is cleared; on a socket that
      is not open only the draft is cleared. */
  function SendMessage(c: Client, now: int): (r: Sent)
    ensures IsBlank(c.draft) || c.selected == None || c.selected == Some("") ==> r == Sent(c, [])
    ensures !IsBlank(c.draft) && c.selected.Some? && c.selected.value != "" ==>
      var to := c.selected.value;
      && r.client.draft == ""
      && r.client.(messages := c.messages, draft := c.draft) == c
      && (c.socket == Open ==>
           && r.frames == [Outbound(to, c.draft)]
           && r.client.messages == c.messages + [ChatMessage(LocalId(now), Str(c.me), Str(to), Str(c.draft), now)])
      && (c.socket != Open ==> r.frames == [] && r.client.messages == c.messages)
  {
    if Trim(c.draft) == "" || c.selected == None || c.selected == Some("") then
      Sent(c, [])
    else
      var to := c.selected.value;
      if c.socket == Open then
        var local := ChatMessage(LocalId(now), Str(c.me), Str(to), Str(c.draft), now);
        Sent(c.(messages := c.messages + [local], draft := ""), [Outbound(to, c.draft)])
      else
        Sent(c.(draft := ""), [])
  }

  /** `allPeople`: the roster's users, marked online, in roster order,
      followed by the offline users, marked offline, in their order. */
  function AllPeople(online: Dict<string>, offline: Dict<Person>): (r: seq<Listed>)
    ensures |r| == |online| + |offline|
    ensures forall i :: 0 <= i < |r| ==> (r[i].online <==> i < |online|)
    ensures forall i :: 0 <= i < |online| ==> r[i] == Listed(online[i].0, online[i].1, true)
    ensures forall i :: 0 <= i < |offline| ==>
      r[|online| + i] == Listed(offline[i].0, offline[i].1.username, false)
  {
    seq(|online|, i requires 0 <= i < |online| => Listed(online[i].0, online[i].1, true))
    + seq(|offline|, i requires 0 <= i < |offline| => Listed(offline[i].0, offline[i].1.username, false))
  }

  /** A presence frame decides the roster alone: whatever two pages held
      before, they hold the same roster after it, and a frame's text is
      ignored once it has an `online` key. */
  lemma PresenceReplacesRoster(c1: Client, c2: Client, f: Incoming)
    requires f.online.Some?
    ensures HandleMessage(c1, f).online == HandleMessage(c2, f).online
    ensures HandleMessage(c1, f).messages == c1.messages
  {
  }

  /** The entries of an offline map built against a roster are neither me
      nor in the roster. */
  lemma OfflineEntries(offline: Dict<Person>, me: string, online: Dict<string>)
    requires forall k :: HasKey(offline, k) ==> k != me && !HasKey(online, k)
    ensures forall i :: 0 <= i < |offline| ==> offline[i].0 != me && !HasKey(online, offline[i].0)
  {
    forall i | 0 <= i < |offline|
      ensures offline[i].0 != me && !HasKey(online, offline[i].0)
    {
      EntryIsPresent(offline, i);
    }
  }

  /** Nobody appears twice in the contact list once the `/people` effect has
      run on the current roster, and I never appear among the offline users;
      every listed user reads back from the map it came from. */
  lemma NobodyListedTwice(people: seq<Person>, me: string, online: Dict<string>)
    requires UniqueKeys(online)
    ensures var offline := OfflinePeople(people, me, online);
      var r := AllPeople(online, offline);
      && (forall i, j :: 0 <= i < j < |r| ==> r[i].id != r[j].id)
      && (forall i :: 0 <= i < |r| && !r[i].online ==> r[i].id != me && Get(offline, r[i].id).Some?)
      && (forall i :: 0 <= i < |r| && r[i].online ==> Get(online, r[i].id) == Some(r[i].username))
  {
    var offline := OfflinePeople(people, me, online);
    OfflineEntries(offline, me, online);
    EntriesRead(online);
    EntriesRead(offline);
    ListedDistinct(online, offline);
  }

  lemma ListedDistinct(online: Dict<string>, offline: Dict<Person>)
    requires UniqueKeys(online) && UniqueKeys(offline)
    requires forall i :: 0 <= i < |online| ==> Get(online, online[i].0).Some?
    requires forall i :: 0 <= i < |offline| ==> Get(online, offline[i].0).None?
    ensures var r := AllPeople(online, offline);
      forall i, j :: 0 <= i < j < |r| ==> r[i].id != r[j].id
  {
    var r := AllPeople(online, offline);
    forall i, j | 0 <= i < j < |r|
      ensures r[i].id != r[j].id
    {
      if j < |online| {
      } else if i < |online| {
        assert Get(online, r[i].id).Some? && Get(online, r[j].id).None?;
      } else {
        assert r[i].id == offline[i - |online|].0;
      }
    }
  }

  /** Every user of the roster and every offline user is listed, with the
      matching state. */
  lemma EveryoneListed(online: Dict<string>, offline: Dict<Person>, k: string)
    ensures var r := AllPeople(online, offline);
      && (HasKey(online, k) ==> exists i :: 0 <= i < |r| && r[i].id == k && r[i].online)
      && (HasKey(offline, k) ==> exists i :: 0 <= i < |r| && r[i].id == k && !r[i].online)
  {
    var r := AllPeople(online, offline);
    if HasKey(online, k) {
      var i :| 0 <= i < |online| && online[i] == (k, Get(online, k).value);
      assert r[i].id == k && r[i].online;
    }
    if HasKey(offline, k) {
      var i :| 0 <= i < |offline| && offline[i] == (k, Get(offline, k).value);
      assert r[|online| + i].id == k && !r[|online| + i].online;
    }
  }

  /** Sending never touches the roster, the offline users, the selection or
      the socket, and a draft that reached the socket is not blank and has a
      non-empty recipient. */
  lemma SendKeepsPeople(c: Client, now: int)
    ensures var r := SendMessage(c, now);
      && r.client.online == c.online && r.client.offline == c.offline
      && r.client.selected == c.selected && r.client.socket == c.socket
      && r.client.me == c.me
      && forall o :: o in r.frames ==> o.recipient != "" && !IsBlank(o.text) && o.text != ""
  {
    var r := SendMessage(c, now);
    if r.frames != [] {
      assert !IsBlank(c.draft);
    }
  }
}
