# ws-chatapp: the live-chat core in Dafny

This project models the real-time part of a two-party chat application.

The server side is api/index.js:
- the WebSocket handshake, which reads a JWT from the `Cookie` header;
- the registry of active connections;
- the message router, which stores each message and forwards it to the recipient's connection;
- the close handler;
- the conversation-history query behind `GET /messages/:userId`.

The client side is client/src/Chat.jsx:
- `handleMessage`, which handles incoming frames;
- `showOnlinePeople`, which builds the roster of users who are online;
- the effect that builds the offline users from `/people`;
- `sendMessage`, which sends a frame and adds a local copy;
- the `allPeople` contact list.

Each event handler is a pure function from a state to the next state, plus the frames it sends.
- The server is a `Server` (`registry`, `sessions`, `store`). An `Output` is a delivered message frame or a `connection.close()`.
- The page is a `Client`.
- Collaborators are parameters: `jwt.verify` is a function `string -> Option<Identity>`, `Message.create` is a `CreateOutcome`, and the clock is an `int`.

JavaScript semantics are modelled explicitly:
- truthiness of parsed JSON values;
- `String.prototype.trim` with the ECMAScript whitespace set;
- `split` on one character;
- `Array.prototype.find` returns the first match;
- plain objects are insertion-ordered entry lists: an existing key keeps its place and a new key goes at the end.

Behaviour of the code a reader might not expect:
- The server never sends a presence frame, so the client's roster stays empty (`Protocol.NobodyEverOnline`).
- A second connection of the same user replaces the registry entry but does not close the older connection (`ServerProperties.ReconnectDisplaces`).
- The close handler deletes the user's entry without checking that the entry still names the closing connection. An older connection closing therefore unregisters a newer one (`ServerProperties.StaleCloseEvictsNewer`).
- A token that `jwt.verify` rejects gets a 500 from the history route, not a 401, like a failed `Message.find`.

On the page, the `message` listener is registered once, by `connectToWs`. Only the mount effect and the reconnect timer call `connectToWs`, and both hold the first render's closures. So `handleMessage` always compares incoming messages against the first render's `selectedUserId`, which is `null`, and live messages are never shown (see "Findings"). The model keeps both versions:
- `ChatClient.HandleMessageAsWritten` is the handler as written.
- `ChatClient.HandleMessage` is the corrected handler. The remaining client and protocol properties use it.

Modules:
- `Wrappers`, `Json` and `Strings` model the JavaScript library behaviour above. `JsObject` models plain objects. `Sequences` holds two facts about slicing sequences that the proofs share.
- `CookieToken` models `getUserDataFromCookie`.
- `Domain` and `ChatServer` model the server handlers. `ServerProperties` holds the properties that span several events.
- `History` models the history route.
- `ChatClient` models the page.
- `Protocol` models the wire between the two: what each side parses from the other's frames, and what happens to a message end to end.

## Model

| member | source | states |
|---|---|---|
| Strings.Trim | api/index.js:228 | The trimmed string neither starts nor ends with whitespace, and it is empty exactly when the input is all whitespace. |
| Strings.TrimSlice | api/index.js:228 | `trim` removes only a blank prefix and a blank suffix: the result is a contiguous slice of the input. |
| Strings.Split | api/index.js:227 | `split` on one character gives at least one piece, and no piece contains the separator. |
| Strings.JoinSplit | api/index.js:227 | Joining the pieces with the separator gives back the original string, so splitting loses nothing. |
| Strings.SplitJoin | api/index.js:232 | Splitting a join of separator-free pieces gives back exactly those pieces. |
| Strings.SplitSecond | api/index.js:232 | `split("=")[1]` is the text after the first `=`, up to the next `=` or the end. |
| CookieToken.FindTokenSegment | api/index.js:226-228 | `find` returns the first piece whose trimmed form starts with `token=`, or nothing when no piece does. |
| CookieToken.SegmentValue | api/index.js:232 | The token value is the text after the piece's first `=` up to the next `=`. It contains no `=`. |
| CookieToken.ExtractToken | api/index.js:222-233 | A missing header gives no token, and so does a header with no token piece. Otherwise the first token piece decides: its value is the token unless the value is empty. A later token piece is never consulted. A token never contains `=` or `;`. |
| CookieToken.UserDataFromCookie | api/index.js:222-241 | With a token, the identity is exactly what `verify` returns for it, whether that is an identity or nothing. Without a token it is nothing, and `verify` is not consulted. |
| CookieToken.ExtractBuiltCookie | api/index.js:222-233 | Round trip: a header whose first token piece is `token=<t>` (any leading whitespace, any `=...` after `t`, any earlier non-token pieces, any later pieces) yields `t`, or nothing when `t` is empty. |
| CookieToken.ExtractedTokenShape | api/index.js:222-233 | Converse: every extracted token comes from a header of exactly that shape. |
| ChatServer.Connect | api/index.js:244-262 | Without a verifiable token the connection is closed and no state changes. Otherwise the user's registry entry names the new connection, every other entry is unchanged, the connection's identity is kept, the store is unchanged, and nothing is sent. |
| ChatServer.Admit | api/index.js:257-262 | Registering the user points the entry at the new connection and leaves every other user's entry and every other connection's identity unchanged. |
| ChatServer.OnMessage | api/index.js:265-306 | These frames change nothing and send nothing: a frame from an unauthenticated connection, an unparseable frame, a frame with a falsy `recipient` or `text`, and a frame whose store call throws. An accepted frame is stored once, with the sender taken from the connection. The recipient's registered connection (if any) gets the stored message first, and the sender's connection always gets it last. |
| ChatServer.OnClose | api/index.js:309-312 | Closing removes the closing user's registry entry, whichever connection it named. Other entries and the store are unchanged. |
| ServerProperties.ApplyKeepsConsistent | api/index.js:244-312 | Any handler keeps every registry entry pointing at an open connection authenticated as that user. |
| ServerProperties.RunKeepsConsistent | api/index.js:244-312 | A whole sequence of events keeps the registry consistent in the same way. |
| ServerProperties.RunOnlyAppends | api/index.js:273-277 | The message store only grows: no event removes or rewrites a stored message. |
| ServerProperties.DeliveryCounts | api/index.js:279-302 | For an accepted message, the sender's connection gets one frame and the recipient's registered connection gets one frame (a user writing to themself gets two). No one else gets anything, and nothing is closed. |
| ServerProperties.StoredMessageInHistory | api/index.js:196-201 | A message the router stored is in the history of both of its parties, whether or not the recipient was connected. |
| ServerProperties.ReconnectDisplaces | api/index.js:257-262 | A second handshake of the same user makes the registry name the newer connection. The older connection stays authenticated and open. |
| ServerProperties.StaleCloseEvictsNewer | api/index.js:309-312 | When an older connection closes after a newer one registered, the user no longer has a registry entry, although the newer connection is still open. |
| ServerProperties.CloseTwiceIsNoOp | api/index.js:309-312 | A second close of the same connection changes nothing. |
| ServerProperties.RejectedConnectionIgnored | api/index.js:251-255 | A rejected connection is closed, registers nothing, and nothing it sends is routed. |
| History.Conversation | api/index.js:196-200 | The `$or` filter keeps every stored message of the two users' conversation, in either direction, as often as it is stored, and nothing else. |
| History.InsertByCreated | api/index.js:201 | Inserting into a list ordered by `createdAt` keeps it ordered and adds exactly that message. |
| History.SortByCreated | api/index.js:201 | `.sort({createdAt: 1})` gives the same messages (as a multiset), oldest first. |
| History.TiesKeepStoredOrder | api/index.js:201 | For any store and any time `t`, the sorted list holds the messages stamped `t` in their stored order. |
| History.InsertAtTime | api/index.js:201 | Inserting a message puts it in front of the messages that share its timestamp, and leaves every other timestamp's messages in order. |
| History.ConversationHistory | api/index.js:196-201 | The history is ordered by `createdAt` and holds exactly the conversation's messages, with multiplicity. A message is in it exactly when it is stored and belongs to the conversation. |
| History.MessagesRoute | api/index.js:184-208 | A missing or empty token gets 401. A token `jwt.verify` rejects gets 500, and so does a verified caller whose `Message.find` fails. A verified caller whose query succeeds gets exactly the history of their conversation with the other user: each stored message of it as often as it is stored, oldest first. |
| JsObject.Get | client/src/Chat.jsx:28 | A key is absent exactly when no entry has it; a value that is found belongs to an entry with that key. |
| JsObject.Put | client/src/Chat.jsx:79 | After `d[k] = v`, key `k` reads `v` and every other key reads as before. |
| JsObject.PutKeepsUnique | client/src/Chat.jsx:79 | Assignment never duplicates a key. |
| JsObject.PutExisting | client/src/Chat.jsx:79 | Assigning an existing key keeps every entry's key in its place. |
| JsObject.PutNew | client/src/Chat.jsx:79 | Assigning a new key appends its entry at the end. |
| JsObject.FromEntries | client/src/Chat.jsx:30-33 | Assigning entries in order gives unique keys. A key is present only if some entry has it, with the value of such an entry, and the last entry with a key decides its value. |
| JsObject.FromEntriesHasEveryKey | client/src/Chat.jsx:30-33 | Every assigned key is present afterwards. |
| JsObject.HasKeyInKeys | client/src/Chat.jsx:28 | A key is present exactly when `Object.keys` lists it. |
| JsObject.PutOrder | client/src/Chat.jsx:79 | After `d[k] = v` the keys are in the same order as before, with `k` appended when it was not present. |
| JsObject.FromEntriesOrder | client/src/Chat.jsx:30-33 | The keys of an object built by assignments are the assigned keys without repeats, in the order each was first assigned. |
| ChatClient.ShowOnlinePeople | client/src/Chat.jsx:76-82 | The roster has unique ids. Its ids are those of the presence array, each listed once, in the order of its first entry, and each id reads the username of its last entry in the array. |
| ChatClient.HandleMessageSeeing | client/src/Chat.jsx:62-74 | Given the selection the listener reads: a frame with an `online` key replaces the roster and nothing else, even if it also has `text`. Otherwise a frame with `text` is appended exactly when its sender or recipient strictly equals that selection (`null` when nothing is selected). Any other frame changes nothing. |
| ChatClient.HandleMessageAsWritten | client/src/Chat.jsx:51-74 | The listener the page registers reads the first render's selection, `null`. So a message frame whose sender and recipient are not `null` changes nothing, while a presence frame still replaces the roster. |
| ChatClient.HandleMessage | client/src/Chat.jsx:62-74 | Corrected handler: a message frame is appended exactly when its sender or recipient is the conversation open when it arrives. Presence frames behave as written. |
| ChatClient.StaleListenerDropsMessage | client/src/Chat.jsx:67-71 | With the conversation with `b` open, a frame from `b` to `a` is dropped by the handler as written and shown by the corrected one. |
| ChatClient.PresenceReplacesRoster | client/src/Chat.jsx:64-65 | The roster after a presence frame does not depend on the roster before it: the frame replaces, it does not merge. |
| ChatClient.KeepOffline | client/src/Chat.jsx:26-28 | The two filters keep exactly the users who are neither me nor in the roster. |
| ChatClient.KeepOfflineAppend | client/src/Chat.jsx:26-28 | The filters keep reply order: what they keep of one part of the reply comes before what they keep of a later part. |
| ChatClient.KeepOfflineOne | client/src/Chat.jsx:26-28 | A single user document is kept exactly when it is neither me nor in the roster. |
| ChatClient.OfflinePeople | client/src/Chat.jsx:24-36 | The offline map has unique keys and holds every kept user under their id. Its keys are the kept users' ids, each once, in reply order. Each key holds a user document from the reply with that id, never me and never someone in the roster. |
| ChatClient.SendMessage | client/src/Chat.jsx:85-112 | A blank draft or no selected user (null or empty id) changes nothing. Otherwise the draft is cleared. On an open socket the untrimmed draft is also sent to the selected user, and a local copy is appended with a `Date.now()` key, sent by me. On any other socket nothing is sent and no message is added. |
| ChatClient.SendKeepsPeople | client/src/Chat.jsx:85-112 | Sending leaves the roster, the offline users, the selection, the socket and me unchanged. A sent frame has a non-empty recipient and a non-blank text. |
| ChatClient.AllPeople | client/src/Chat.jsx:122-133 | The contact list is the roster's users, marked online, in roster order, followed by the offline users, marked offline, in their order. |
| ChatClient.NobodyListedTwice | client/src/Chat.jsx:122-133 | Once the offline map is built against the current roster, no id is listed twice, and I am never listed offline. Every online entry reads back from the roster, and every offline entry is in the offline map. |
| ChatClient.EveryoneListed | client/src/Chat.jsx:122-133 | Every roster user is listed as online, and every offline user is listed as offline. |
| Protocol.SentFrameAccepted | api/index.js:270 | Every frame `sendMessage` sends passes the server's guard that drops a frame with a falsy `recipient` or `text`. |
| Protocol.FramesTo | api/index.js:279-302 | The frames a connection receives are exactly the delivered messages addressed to it, one per delivery to it. |
| Protocol.FramesToOne | api/index.js:279-302 | One output is a frame for a connection exactly when it delivers to that connection. |
| Protocol.FramesToAppend | api/index.js:279-302 | Frames arrive in sending order: what earlier outputs deliver to a connection comes before what later outputs deliver to it. |
| Protocol.Receive | client/src/Chat.jsx:62-74 | Message frames from the server only ever append messages. They never touch the roster, the offline users, the selection, the draft or the socket. |
| Protocol.NobodyEverOnline | client/src/Chat.jsx:64-65 | The server sends no presence frame, so a page whose roster starts empty keeps it empty whatever the server does, and its contact list marks nobody online. |
| Protocol.LiveMessagesNeverShownAsWritten | client/src/Chat.jsx:62-74 | With the listener as written, no frame the router sends is ever shown: neither the recipient's copy nor the sender's echo. |
| Protocol.EchoDuplicatesLocalCopy | client/src/Chat.jsx:95-107 | With the corrected handler: send on an open socket, then have the server store the message and echo it to the sender, then have the page handle the echo. The conversation now shows the message twice: the local copy under its `Date.now()` key and the stored copy under its database id. Both have the same sender, recipient and text. |
| Protocol.RecipientSeesMessage | api/index.js:279-291 | With the corrected handler, a page whose open conversation is with the sender appends the frame the server delivers to the recipient's connection. |

## Left out

- Transport and I/O: sockets, HTTP, `JSON.stringify` and `JSON.parse` are not modelled byte for byte. A parsed frame is the `Payload` or `Incoming` record, and an unparseable frame is the `Unparseable` case.
- Concurrency: each handler runs atomically. The `await` of `Message.create` is not modelled as a point where other handlers can interleave. On the client, a `/people` reply that arrives after a newer presence frame is not modelled either.
- The client's reconnect timer (`setTimeout(connectToWs, 1000)`) and `connectToWs` are left out. A reconnect appears on the server side as a new `Connection` event.
- Presence broadcast, closing a displaced connection, and an identity check on close do not exist in the code, so they are not modelled. Their absence is stated as properties (see above).
- `jwt.verify`, the secret and token expiry are a parameter function. The database is the `store` sequence, and `Message.create` is a `CreateOutcome` parameter. Mongoose's casting of `recipient` to an ObjectId and of `text` to a string is not modelled: the stored fields are the JSON values the frame held.
- History.SortByCreated: the database gives no order for messages with equal `createdAt`. The model keeps their stored order (`History.TiesKeepStoredOrder`), which is one order the database may return.
- History.MessagesRoute: why `Message.find` fails (a `:userId` that is not an ObjectId, a database error) is not modelled. The `queryOk` parameter says whether it succeeded.
- JsObject: integer-like keys, which JavaScript enumerates before other keys, are not modelled. Every key is taken as a non-numeric string, which database ids are.
- ChatClient.SendMessage: `Date.now()` and `new Date().toISOString()` are two reads of the clock. They are modelled as one value `now`, and `createdAt` is kept as milliseconds rather than an ISO string.
- ChatClient.ShowOnlinePeople: a presence entry that is not `{userId, username}` strings, and an `online` value that is not an array (which makes `forEach` throw), are not modelled.
- `ws` is `null` before `connectToWs` runs: this is `NoSocket`.
- The history-loading effect (Chat.jsx 38-44), scrolling, logout and rendering are left out. So are registration, login, the people route, api/routes/messages.js, RegisterAndLoginForm.jsx and App.jsx. They are outside the real-time core.

## Findings

| source | as written | input that shows it | evidently intended | confidence | as-written member | corrected member |
|---|---|---|---|---|---|---|
| client/src/Chat.jsx:62-74 | The `message` listener is registered once from the mount effect (lines 20-22 and 55), so `handleMessage` reads the first render's `selectedUserId`, which is `null`. | Page of user `a` with the conversation with `b` open receives `{_id, sender: "b", recipient: "a", text: "hi", createdAt}`: the message is not appended. | Append the frame when its sender or recipient is the conversation open when it arrives. | high; not executed | ChatClient.StaleListenerDropsMessage | ChatClient.HandleMessage |
