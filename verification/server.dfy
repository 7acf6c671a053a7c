/**
 * The WebSocket half of api/index.js as a state machine. Each Node event
 * handler (`connection`, a connection's `message`, a connection's `close`)
 * is one atomic step from a server state to a new state plus the frames and
 * closes it sends. Token verification and the database are parameters.
 */
module ChatServer {
  import opened Wrappers
  import opened Json
  import opened Domain
  import CookieToken

  /** The server's in-memory state and its view of the database.
      `registry` is `activeConnections` (userId to connection). `sessions`
      holds, for each authenticated connection that is still open, the
      identity its handlers captured at the handshake. `store` is the
      message collection in insertion order. */
  datatype Server = Server(
    registry: map<UserId, ConnId>,
    sessions: map<ConnId, Identity>,
    store: seq<Message>)

  /** What a step does to the outside world: `connection.send` of a message
      frame, or `connection.close()`. */
  datatype Output = Deliver(to: ConnId, msg: Message) | CloseConn(conn: ConnId)

  datatype Step = Step(state: Server, out: seq<Output>)

  /** An inbound frame after `JSON.parse`: text that does not parse, or the
      `recipient` and `text` fields read off the parsed value (`Absent` when
      a field is missing or the value is not an object). */
  datatype Payload = Unparseable | Fields(recipient: JsValue, text: JsValue)

  /** What `Message.create` did: stored the message under a fresh id with the
      database's timestamp, or threw. */
  datatype CreateOutcome = Created(id: MsgId, createdAt: int) | CreateFailed

  const Initial: Server := Server(map[], map[], [])

  /** `activeConnections.get(u)`. */
  function Lookup(s: Server, u: UserId): Option<ConnId> {
    if u in s.registry then Some(s.registry[u]) else None
  }

  /** `activeConnections.get(recipient)` for a parsed field: the keys are
      strings, so no other JSON value finds an entry. */
  function RecipientConn(s: Server, recipient: JsValue): Option<ConnId> {
    match recipient
    case Str(u) => Lookup(s, u)
    case _ => None
  }

  /** The frame survives `JSON.parse` and the `!recipient || !text` guard. */
  predicate Accepted(p: Payload) {
    p.Fields? && Truthy(p.recipient) && Truthy(p.text)
  }

  /** The `connection` handler. A connection without a verifiable token is
      closed and nothing is registered. Otherwise the user's registry entry
      now names this connection, whatever it named before; the connection it
      displaces is left open, and no other entry changes. */
  function Connect(s: Server, conn: ConnId, cookie: Option<string>, verify: string -> Option<Identity>): (r: Step)
    ensures CookieToken.UserDataFromCookie(cookie, verify).None? ==>
      r.state == s && r.out == [CloseConn(conn)]
    ensures CookieToken.UserDataFromCookie(cookie, verify).Some? ==>
      var id := CookieToken.UserDataFromCookie(cookie, verify).value;
      && Lookup(r.state, id.userId) == Some(conn)
      && (forall u :: u != id.userId ==> Lookup(r.state, u) == Lookup(s, u))
      && conn in r.state.sessions && r.state.sessions[conn] == id
      && (forall c :: c != conn && c in s.sessions ==> c in r.state.sessions && r.state.sessions[c] == s.sessions[c])
      && r.state.sessions.Keys == s.sessions.Keys + {conn}
      && r.state.store == s.store
      && r.out == []
  {
    match CookieToken.UserDataFromCookie(cookie, verify)
    case None => Step(s, [CloseConn(conn)])
    case Some(id) => Step(Admit(s, conn, id), [])
  }

  /** The accepted branch of the handshake: `activeConnections.set` for the
      user and the identity the connection's handlers keep. */
  function Admit(s: Server, conn: ConnId, id: Identity): (r: Server)
    ensures Lookup(r, id.userId) == Some(conn)
    ensures forall u :: u != id.userId ==> Lookup(r, u) == Lookup(s, u)
    ensures conn in r.sessions && r.sessions[conn] == id
    ensures forall c :: c != conn && c in s.sessions ==> c in r.sessions && r.sessions[c] == s.sessions[c]
    ensures r.sessions.Keys == s.sessions.Keys + {conn}
    ensures r.store == s.store
  {
    s.(registry := s.registry[id.userId := conn], sessions := s.sessions[conn := id])
  }

  /** A connection's `message` handler. A frame from a connection that never
      authenticated has no handler; an unparseable frame, one with a falsy
      `recipient` or `text`, and one whose `Message.create` throws change
      nothing and send nothing. An accepted frame is stored once, with the
      sender taken from the connection's identity and not from the frame;
      the recipient's registered connection, if any, gets the stored message,
      and then the sender's connection always gets the same message. */
  function OnMessage(s: Server, conn: ConnId, p: Payload, outcome: CreateOutcome): (r: Step)
    ensures conn !in s.sessions || !Accepted(p) || outcome.CreateFailed? ==> r == Step(s, [])
    ensures conn in s.sessions && Accepted(p) && outcome.Created? ==>
      var m := Message(outcome.id, s.sessions[conn].userId, p.recipient, p.text, outcome.createdAt);
      && r.state.registry == s.registry
      && r.state.sessions == s.sessions
      && r.state.store == s.store + [m]
      && |r.out| == (if RecipientConn(s, p.recipient).Some? then 2 else 1)
      && (forall k :: 0 <= k < |r.out| ==> r.out[k].Deliver? && r.out[k].msg == m)
      && r.out[|r.out| - 1].to == conn
      && (RecipientConn(s, p.recipient).Some? ==> r.out[0].to == RecipientConn(s, p.recipient).value)
  {
    if conn !in s.sessions || !Accepted(p) then
      Step(s, [])
    else
      match outcome
      case CreateFailed => Step(s, [])
      case Created(id, createdAt) =>
        var m := Message(id, s.sessions[conn].userId, p.recipient, p.text, createdAt);
        var toRecipient :=
          match RecipientConn(s, p.recipient)
          case Some(rc) => [Deliver(rc, m)]
          case None => [];
        Step(s.(store := s.store + [m]), toRecipient + [Deliver(conn, m)])
  }

  /** A connection's `close` handler. It deletes the registry entry of the
      user the connection authenticated as, without checking that the entry
      still names this connection. Unauthenticated connections have no
      handler. */
  function OnClose(s: Server, conn: ConnId): (r: Step)
    ensures r.out == [] && r.state.store == s.store
    ensures conn !in s.sessions ==> r.state == s
    ensures conn in s.sessions ==>
      var u := s.sessions[conn].userId;
      && Lookup(r.state, u) == None
      && (forall v :: v != u ==> Lookup(r.state, v) == Lookup(s, v))
      && r.state.sessions == s.sessions - {conn}
  {
    if conn !in s.sessions then
      Step(s, [])
    else
      var u := s.sessions[conn].userId;
      Step(s.(registry := s.registry - {u}, sessions := s.sessions - {conn}), [])
  }

  /** The events the server reacts to, in the order the event loop runs them. */
  datatype Event =
    | Connection(conn: ConnId, cookie: Option<string>)
    | Inbound(conn: ConnId, payload: Payload, outcome: CreateOutcome)
    | Disconnect(conn: ConnId)

  function Apply(s: Server, e: Event, verify: string -> Option<Identity>): Step {
    match e
    case Connection(conn, cookie) => Connect(s, conn, cookie, verify)
    case Inbound(conn, payload, outcome) => OnMessage(s, conn, payload, outcome)
    case Disconnect(conn) => OnClose(s, conn)
  }

  /** Runs events one after another and collects everything they send. */
  function Run(s: Server, events: seq<Event>, verify: string -> Option<Identity>): Step
    decreases |events|
  {
    if |events| == 0 then
      Step(s, [])
    else
      var first := Apply(s, events[0], verify);
      var rest := Run(first.state, events[1..], verify);
      Step(rest.state, first.out + rest.out)
  }
}
