/**
 * The wire between Chat.jsx and api/index.js: what the server makes of the
 * frame the page sends, what the page makes of the frames the server sends,
 * and what the two together do to a conversation.
 */
module Protocol {
  import opened Wrappers
  import opened Json
  import opened Domain
  import opened Strings
  import opened ChatServer
  import opened ChatClient
  import ServerProperties

  /** The server's `JSON.parse` of `JSON.stringify({recipient, text})`. */
  function ToPayload(o: Outbound): Payload {
    Fields(Str(o.recipient), Str(o.text))
  }

  /** The page's `JSON.parse` of a stored message the server sent: no
      `online` key, a `text` key, and the stored fields. */
  function ToIncoming(m: Message): Incoming {
    Incoming(None, true, ChatMessage(StoredId(m.id), Str(m.sender), m.recipient, m.text, m.createdAt))
  }

  /** Every frame `sendMessage` sends passes the server's
      `!recipient || !text` guard. */
  lemma SentFrameAccepted(c: Client, now: int)
    ensures forall o :: o in SendMessage(c, now).frames ==> Accepted(ToPayload(o))
  {
    SendKeepsPeople(c, now);
  }

  /** The messages a page receives on connection `conn`, in sending order. */
  function FramesTo(out: seq<Output>, conn: ConnId): (r: seq<Message>)
    ensures forall m :: m in r <==> Deliver(conn, m) in out
    ensures |r| == ServerProperties.DeliveriesTo(out, conn)
  {
    if |out| == 0 then
      []
    else
      var rest := FramesTo(out[1..], conn);
      assert forall o :: o in out <==> o == out[0] || o in out[1..];
      if out[0].Deliver? && out[0].to == conn then [out[0].msg] + rest else rest
  }

  /** One output is a frame for `conn` exactly when it delivers to `conn`. */
  lemma FramesToOne(o: Output, conn: ConnId)
    ensures FramesTo([o], conn) == if o.Deliver? && o.to == conn then [o.msg] else []
  {
    assert [o][1..] == [];
  }

  /** Frames keep their sending order: what `a` sends to `conn` arrives
      before what `b` sends to it. */
  lemma {:induction false} FramesToAppend(a: seq<Output>, b: seq<Output>, conn: ConnId)
    ensures FramesTo(a + b, conn) == FramesTo(a, conn) + FramesTo(b, conn)
    decreases |a|
  {
    if |a| == 0 {
      assert a + b == b;
    } else {
      assert (a + b)[1..] == a[1..] + b;
      FramesToAppend(a[1..], b, conn);
    }
  }

  /** The page handling server frames one after another. Message frames
      never touch the roster, the offline users, the selection, the draft or
      the socket; they only ever add messages at the end. */
  function Receive(c: Client, ms: seq<Message>): (r: Client)
    ensures r.(messages := c.messages) == c
    ensures c.messages <= r.messages
    ensures |r.messages| <= |c.messages| + |ms|
    decreases |ms|
  {
    if |ms| == 0 then
      c
    else
      Receive(HandleMessage(c, ToIncoming(ms[0])), ms[1..])
  }

  /** This server never sends a presence frame, so a page that starts with
      an empty roster keeps it empty whatever the server does, and its
      contact list marks nobody online. */
  lemma NobodyEverOnline(s: Server, events: seq<Event>, verify: string -> Option<Identity>, conn: ConnId, c: Client)
    requires c.online == []
    ensures var r := Receive(c, FramesTo(Run(s, events, verify).out, conn));
      && r.online == []
      && forall i :: 0 <= i < |AllPeople(r.online, r.offline)| ==> !AllPeople(r.online, r.offline)[i].online
  {
  }

  /** With the listener as the page registers it, no frame the router sends
      is ever shown: neither the recipient's copy nor the sender's echo. */
  lemma LiveMessagesNeverShownAsWritten(s: Server, conn: ConnId, p: Payload, outcome: CreateOutcome, c: Client)
    ensures var out := OnMessage(s, conn, p, outcome).out;
      forall k :: 0 <= k < |out| && out[k].Deliver? ==> HandleMessageAsWritten(c, ToIncoming(out[k].msg)) == c
  {
  }

  /** With the intended handler, sending on an open socket, the server
      storing the frame and echoing it back, and the page handling the echo
      leave the conversation with the message twice: the local copy under a `Date.now()` key and the stored
      copy under the database id, both from me to the selected user with the
      same text. */
  lemma EchoDuplicatesLocalCopy(c: Client, now: int, s: Server, conn: ConnId, id: MsgId, createdAt: int)
    requires !IsBlank(c.draft) && c.selected.Some? && c.selected.value != "" && c.socket == Open
    requires conn in s.sessions && s.sessions[conn].userId == c.me
    ensures var sent := SendMessage(c, now);
      var step := OnMessage(s, conn, ToPayload(sent.frames[0]), Created(id, createdAt));
      var echo := step.out[|step.out| - 1];
      var to := c.selected.value;
      && echo == Deliver(conn, echo.msg)
      && HandleMessage(sent.client, ToIncoming(echo.msg)).messages == c.messages + [
           ChatMessage(LocalId(now), Str(c.me), Str(to), Str(c.draft), now),
           ChatMessage(StoredId(id), Str(c.me), Str(to), Str(c.draft), createdAt)]
  {
    var sent := SendMessage(c, now);
    SentFrameAccepted(c, now);
    assert sent.frames[0] in sent.frames;
  }

  /** A page whose open conversation is with the sender shows the message
      the server delivers to the recipient's connection. */
  lemma RecipientSeesMessage(s: Server, conn: ConnId, p: Payload, id: MsgId, createdAt: int, c: Client)
    requires conn in s.sessions && Accepted(p) && RecipientConn(s, p.recipient).Some?
    requires c.selected == Some(s.sessions[conn].userId)
    ensures var step := OnMessage(s, conn, p, Created(id, createdAt));
      && step.out[0].to == RecipientConn(s, p.recipient).value
      && HandleMessage(c, ToIncoming(step.out[0].msg)).messages
         == c.messages + [ChatMessage(StoredId(id), Str(s.sessions[conn].userId), p.recipient, p.text, createdAt)]
  {
  }
}
