/**
 * The entities the chat server works with. Connections, users and stored
 * messages are identified by opaque handles; the payload fields a client
 * sent are kept as the JSON values it sent.
 */
module Domain {
  import opened Json

  /** The `userId` a verified token carries (a database id, as text). */
  type UserId = string

  /** An opaque handle for one WebSocket connection object. */
  type ConnId = nat

  /** The id the database assigns to a stored message. */
  type MsgId = nat

  /** The decoded token payload the handshake needs. */
  datatype Identity = Identity(userId: UserId, username: string)

  /** A stored message. The server sends exactly these five fields
      (`_id`, `sender`, `recipient`, `text`, `createdAt`) as a message frame.
      `recipient` and `text` are whatever the sender's frame held;
      `createdAt` is the database's clock in milliseconds. */
  datatype Message = Message(
    id: MsgId,
    sender: UserId,
    recipient: JsValue,
    text: JsValue,
    createdAt: int)
}
