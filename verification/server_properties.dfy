/**
 * Properties of the WebSocket server that relate several steps or several
 * connections: the registry invariant, the effect of reconnecting and of a
 * stale close, who receives how many frames, and that what the router stores
 * is what the history query returns.
 */
module ServerProperties {
  import opened Wrappers
  import opened Json
  import opened Domain
  import opened ChatServer
  import CookieToken
  import History

  /** Every registry entry names an open, authenticated connection of that
      very user: a lookup never reaches a closed or foreign connection. */
  predicate RegistryConsistent(s: Server) {
    forall u :: u in s.registry ==> s.registry[u] in s.sessions && s.sessions[s.registry[u]].userId == u
  }

  /** Each `connection` event brings a connection object the server has not
      seen before. */
  predicate FreshConnection(s: Server, e: Event) {
    e.Connection? ==> e.conn !in s.sessions
  }

  /** Every `connection` event of a run brings a new connection object. */
  predicate FreshThroughout(s: Server, events: seq<Event>, verify: string -> Option<Identity>)
    decreases |events|
  {
    |events| > 0 ==>
      && FreshConnection(s, events[0])
      && FreshThroughout(Apply(s, events[0], verify).state, events[1..], verify)
  }

  /** One event keeps the registry consistent. */
  lemma ApplyKeepsConsistent(s: Server, e: Event, verify: string -> Option<Identity>)
    requires RegistryConsistent(s) && FreshConnection(s, e)
    ensures RegistryConsistent(Apply(s, e, verify).state)
  {
    var s' := Apply(s, e, verify).state;
    match e
    case Connection(conn, cookie) =>
      forall u | u in s'.registry
        ensures s'.registry[u] in s'.sessions && s'.sessions[s'.registry[u]].userId == u
      {
        assert Lookup(s', u).Some?;
        if Lookup(s, u) != Lookup(s', u) {
          assert Lookup(s', u) == Some(conn);
        } else {
          assert s.registry[u] != conn;
        }
      }
    case Inbound(conn, payload, outcome) =>
    case Disconnect(conn) =>
      forall u | u in s'.registry
        ensures s'.registry[u] in s'.sessions && s'.sessions[s'.registry[u]].userId == u
      {
        assert Lookup(s', u) == Lookup(s, u);
      }
  }

  /** A whole run from a consistent state stays consistent. */
  lemma {:induction false} RunKeepsConsistent(s: Server, events: seq<Event>, verify: string -> Option<Identity>)
    requires RegistryConsistent(s) && FreshThroughout(s, events, verify)
    ensures RegistryConsistent(Run(s, events, verify).state)
    decreases |events|
  {
    if |events| > 0 {
      ApplyKeepsConsistent(s, events[0], verify);
      RunKeepsConsistent(Apply(s, events[0], verify).state, events[1..], verify);
    }
  }

  /** The message store is append-only: no event removes or rewrites a stored message. */
  lemma {:induction false} RunOnlyAppends(s: Server, events: seq<Event>, verify: string -> Option<Identity>)
    ensures s.store <= Run(s, events, verify).state.store
    decreases |events|
  {
    if |events| > 0 {
      RunOnlyAppends(Apply(s, events[0], verify).state, events[1..], verify);
    }
  }

  /** How many message frames `out` sends to connection `c`. */
  function DeliveriesTo(out: seq<Output>, c: ConnId): nat {
    if |out| == 0 then 0
    else (if out[0].Deliver? && out[0].to == c then 1 else 0) + DeliveriesTo(out[1..], c)
  }

  /** How many closes `out` performs. */
  function Closes(out: seq<Output>): nat {
    if |out| == 0 then 0
    else (if out[0].CloseConn? then 1 else 0) + Closes(out[1..])
  }

  lemma DeliveriesOfTwo(a: Output, b: Output, c: ConnId)
    ensures DeliveriesTo([a, b], c) == DeliveriesTo([a], c) + DeliveriesTo([b], c)
    ensures Closes([a, b]) == Closes([a]) + Closes([b])
  {
    assert [a, b][1..] == [b];
  }

  /** Who receives an accepted, stored message: the sender's connection one
      frame, the recipient's registered connection one frame, nobody else
      anything (a user writing to themself on their registered connection
      gets two), and no connection is closed. */
  lemma DeliveryCounts(s: Server, conn: ConnId, p: Payload, outcome: CreateOutcome)
    requires conn in s.sessions && Accepted(p) && outcome.Created?
    ensures var r := OnMessage(s, conn, p, outcome);
      && Closes(r.out) == 0
      && DeliveriesTo(r.out, conn) == (if RecipientConn(s, p.recipient) == Some(conn) then 2 else 1)
      && forall c :: c != conn ==>
           DeliveriesTo(r.out, c) == (if RecipientConn(s, p.recipient) == Some(c) then 1 else 0)
  {
    var r := OnMessage(s, conn, p, outcome);
    if RecipientConn(s, p.recipient).Some? {
      DeliveriesOfTwo(r.out[0], r.out[1], conn);
      forall c | c != conn
        ensures DeliveriesTo(r.out, c) == (if RecipientConn(s, p.recipient) == Some(c) then 1 else 0)
      {
        DeliveriesOfTwo(r.out[0], r.out[1], c);
      }
      assert r.out == [r.out[0], r.out[1]];
    } else {
      assert r.out == [r.out[0]];
    }
  }

  /** A stored message is found afterwards by the history query of either
      party, whether or not its recipient was connected. */
  lemma StoredMessageInHistory(s: Server, conn: ConnId, p: Payload, outcome: CreateOutcome)
    requires conn in s.sessions && Accepted(p) && outcome.Created? && p.recipient.Str?
    ensures var r := OnMessage(s, conn, p, outcome);
      var m := r.state.store[|s.store|];
      var sender := s.sessions[conn].userId;
      && m.sender == sender && m.recipient == p.recipient && m.text == p.text
      && m in History.ConversationHistory(r.state.store, sender, p.recipient.s)
      && m in History.ConversationHistory(r.state.store, p.recipient.s, sender)
  {
  }

  /** Reconnecting: a second handshake of the same user makes the registry
      name the new connection. The old connection is not closed and stays
      authenticated, so frames it sends are still routed. */
  lemma ReconnectDisplaces(s: Server, c1: ConnId, c2: ConnId, cookie1: Option<string>, cookie2: Option<string>,
                            verify: string -> Option<Identity>)
    requires CookieToken.UserDataFromCookie(cookie1, verify).Some?
    requires CookieToken.UserDataFromCookie(cookie2, verify).Some?
    requires CookieToken.UserDataFromCookie(cookie1, verify).value.userId
          == CookieToken.UserDataFromCookie(cookie2, verify).value.userId
    requires c1 != c2
    ensures var u := CookieToken.UserDataFromCookie(cookie1, verify).value.userId;
      var first := Connect(s, c1, cookie1, verify);
      var second := Connect(first.state, c2, cookie2, verify);
      && Lookup(second.state, u) == Some(c2)
      && c1 in second.state.sessions
      && first.out + second.out == []
  {
  }

  /** A stale close: when a user's older connection closes after a newer one
      registered, the user's entry is deleted although the newer connection
      is still open, so nothing is routed to that user any more. */
  lemma StaleCloseEvictsNewer(s: Server, c1: ConnId, c2: ConnId, cookie1: Option<string>, cookie2: Option<string>,
                               verify: string -> Option<Identity>)
    requires CookieToken.UserDataFromCookie(cookie1, verify).Some?
    requires CookieToken.UserDataFromCookie(cookie2, verify).Some?
    requires CookieToken.UserDataFromCookie(cookie1, verify).value.userId
          == CookieToken.UserDataFromCookie(cookie2, verify).value.userId
    requires c1 != c2
    ensures var u := CookieToken.UserDataFromCookie(cookie1, verify).value.userId;
      var s1 := Connect(s, c1, cookie1, verify).state;
      var s2 := Connect(s1, c2, cookie2, verify).state;
      var s3 := OnClose(s2, c1).state;
      && Lookup(s2, u) == Some(c2)
      && Lookup(s3, u) == None
      && c2 in s3.sessions
      && RecipientConn(s3, Str(u)) == None
  {
  }

  /** A second close of the same connection does nothing. */
  lemma CloseTwiceIsNoOp(s: Server, conn: ConnId)
    ensures var once := OnClose(s, conn);
      OnClose(once.state, conn) == Step(once.state, [])
  {
  }

  /** A rejected connection is closed, registers nothing, and frames it
      might still deliver are ignored. */
  lemma RejectedConnectionIgnored(s: Server, conn: ConnId, cookie: Option<string>, verify: string -> Option<Identity>,
                                  p: Payload, outcome: CreateOutcome)
    requires conn !in s.sessions
    requires CookieToken.UserDataFromCookie(cookie, verify).None?
    ensures var r := Connect(s, conn, cookie, verify);
      && r.out == [CloseConn(conn)]
      && r.state == s
      && OnMessage(r.state, conn, p, outcome) == Step(s, [])
  {
  }
}
