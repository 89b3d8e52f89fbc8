# Talky relay server: room-membership registry

This project models the WebSocket relay in `server/index.ts` of Talky. The
server keeps one module-level list, `allSockets`, of `{socket, room}` entries.
Three events change it or read it:

- a `join` message appends an entry for the sending socket and the payload's `roomId`;
- a `chat` message looks up the sender's room (the room of its first entry) and
  sends the text to every entry in that room, in list order;
- a socket's `close` event replaces the list by its entries for other sockets.

Sockets are opaque naturals. A room is `Option<string>`, where `None` is the
JavaScript `undefined` of a missing `roomId` or of a sender that never joined.
Outbound `socket.send` calls are returned by the chat handler as an ordered list
of `Send(to, text)` values.

Files:

- `wrappers.dfy`: module `Wrappers`, the `Option` datatype.
- `registry.dfy`: module `Registry`. It holds the entries and sends as values,
  the specification functions (`FirstIndex`, `RoomOf`, `Recipients`, `Remove`)
  and the lemmas about them.
- `server.dfy`: module `RelayServer`. It holds the decoded inbound message type,
  the fan-out loop `FanOut`, and the class `Server`. The class has the
  `allSockets` list as a `seq` field, a multiset of registered close listeners,
  and one method per event.

Some quirks of the code are modelled as written, not corrected:

- A join performs no duplicate check. A socket that joins twice has two entries
  and receives every chat in that room twice (`RecipientsMultiplicity`).
- A later join never moves a socket. Its chat room stays the room of its first
  entry (`RoomOfAfterJoin`).
- The sender receives its own chat (`SenderReceivesOwnChat`).
- A sender with no entry chats to room `undefined`. Only entries that joined
  without a `roomId` receive it (`UnjoinedSenderChat`).
- The close listener is registered inside the message handler (line 33), so a
  socket has one listener per message it sent. `Server.OnClose` runs all of
  them. The filter is idempotent (`RemoveIdempotent`), so the result is that
  of one filter. The invariant `Server.Valid` ensures that every socket with an
  entry has at least one listener, so a close always removes all of its entries.

## Model

| member | source | states |
|---|---|---|
| `Registry.FirstIndex` | server/index.ts:24 | the result is the index of the first entry whose socket is the sender, with no earlier entry for it, and `None` exactly when no entry has that socket |
| `Registry.RoomOf` | server/index.ts:24 | the chat room is the room of the sender's first entry, and `undefined` when the sender has no entry |
| `Registry.Recipients` | server/index.ts:26-30 | there are at most as many sends as entries, and each send carries the chat message unchanged to a socket with an entry in the target room |
| `Registry.Remove` | server/index.ts:34 | an entry stays after a close exactly when it was in the list and belongs to another socket |
| `Registry.RoomOfAfterJoin` | server/index.ts:16-24 | after a join, a socket that already had an entry keeps its room; a socket without one gets the joined room only if it is the joiner |
| `Registry.RecipientsAppend` | server/index.ts:26-30 | the sends for a concatenated list are the sends for the first part followed by those for the second, so sends follow registry order |
| `Registry.RecipientsSingle` | server/index.ts:27-29 | one entry yields one send exactly when its room equals the target room (loose `==` on strings and `undefined`) |
| `Registry.RecipientsMultiplicity` | server/index.ts:26-30 | each socket is sent the message as many times as it has entries in the target room |
| `Registry.SenderReceivesOwnChat` | server/index.ts:24-30 | a sender that has joined is among the recipients of its own chat |
| `Registry.UnjoinedSenderChat` | server/index.ts:24-28 | a sender with no entry targets `undefined`: every recipient has an entry with no room, and nobody receives the chat when every entry has a room |
| `Registry.RemoveAppend` | server/index.ts:34 | the close filter acts on each part of a list separately, so it keeps the surviving entries in their relative order |
| `Registry.RemoveMultiplicity` | server/index.ts:34 | after a close, entries of the closed socket occur zero times and every other entry occurs as often as before |
| `Registry.RemoveAbsent` | server/index.ts:34 | closing a socket that has no entry leaves the list unchanged |
| `Registry.RemoveIdempotent` | server/index.ts:33-35 | running the close filter twice gives the same list as running it once |
| `Registry.RemoveCommutes` | server/index.ts:34 | closing two sockets gives the same list in either order |
| `Registry.JoinThenClose` | server/index.ts:16-35 | a join followed by a close of the same socket leaves the list as the close alone would |
| `RelayServer.FanOut` | server/index.ts:26-30 | the `forEach` loop returns exactly the sends of `Recipients` for the list, the target room and the message |
| `RelayServer.Server.constructor` | server/index.ts:10 | the registry starts empty, with no close listeners |
| `RelayServer.Server.OnMessage` | server/index.ts:13-35 | a join appends exactly one entry `(socket, roomId)` at the end; a chat leaves the registry unchanged and returns the sends to the sender's room; every message adds one close listener; the listener invariant is kept |
| `RelayServer.Server.OnClose` | server/index.ts:33-35 | running all of the socket's close listeners leaves exactly the filtered list, so no entry of the socket remains |

## Left out

- The `ws` transport (`WebSocketServer`, port 8080, listener registration and `socket.send`). Sends are returned as values instead of being written.
- `JSON.parse` of the inbound frame (line 14). A malformed frame throws with no handler, and then no close listener is registered for that message. Inbound frames are modelled as an already-decoded `Inbound` value.
- Loose equality between a string room id and a non-string one (for example `"1" == 1`). Room ids are strings or `undefined`, and `null` is identified with `undefined`.
- A non-string chat payload. The message is a string, and `send` of `undefined` or of an object is not modelled.
- A socket's listeners after its close. The `ws` library fires `close` once, so `Server.OnClose` leaves the listener count as it is.
- The client (React UI components, poll percentages with floating-point `Math.round`, the 2–5 option bound shown only as button visibility). This is display code.
- Rooms with admins, private rooms, email OTP verification, polls, colour allocation and user counts. The server file has no code for them, so none are modelled.
