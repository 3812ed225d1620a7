# Signaling server registry

This project models the connection and room registry of a small real-time signaling
server (an Express + socket.io process, `server.js`). The server keeps two
process-wide dictionaries:

- `users` maps a connection id to the nickname that connection claimed;
- `rooms` maps a room code to the ordered list of member connection ids.

Four socket event handlers read and update them: `set-nickname`, `create-room`,
`join-room` and `disconnect`. A fifth, `message`, only broadcasts and touches neither.
Node runs each handler to completion on one event loop, so each handler is one
atomic step.

The model has three modules:

- `Members` (Members.dfy): the order-preserving filter that `disconnect` applies to
  each room's member list (`Without`), with its meaning proved. The proofs cover
  exact contents with multiplicity, relative order (it distributes over
  concatenation), idempotence and when the result is empty.
- `Registry` (Registry.dfy): the two dictionaries as a value (`State`) and one
  function per handler. Each function returns the new state and what the handler
  emits (`Reply`). The module also holds the registry invariant (`Valid`: nicknames
  pairwise distinct, no room without members) and the lemmas about the handlers.
  `Handle` dispatches one event to its handler. `Run` applies a sequence of events
  in arrival order.
- `SignalingServer` (Server.dfy): class `Server` with the two dictionaries as `map`
  fields. Each handler is a method that updates them in place. Each method is proved
  to reach exactly the state, and send exactly the reply, that the matching
  `Registry` function gives, and to keep `Valid`. `Disconnect` is a `while` loop over
  the room codes that existed when it started. It filters each room's list and
  deletes the rooms left empty, like the source's `for ... in` loop.

Behaviour kept as the code has it, some of which a reader might not expect:

- Room members are an ordered list in which the same id may occur more than once.
- A name already held by any connection is refused, including by the connection
  that holds it.
- `join-room` appends without checking for duplicates. Joining twice gives two
  entries, and a connection may be in several rooms.
- `create-room` does not check the generated code. A code already in use replaces
  that room.
- `disconnect` deletes the nickname entry only when the stored name is truthy. A
  connection that claimed the empty string keeps that entry after it disconnects, so
  the empty name stays taken for good (`EmptyNicknameStaysClaimed`).

## Model

| member | source | states |
|---|---|---|
| `Members.Without` | server.js:66 | The filtered list holds exactly the members other than the leaving id, and it is no longer than the original |
| `Members.WithoutConcat` | server.js:66 | Filtering distributes over concatenation, so the survivors keep their original relative order |
| `Members.WithoutMultiset` | server.js:66 | Every other member keeps its number of occurrences, and the leaving id has none left |
| `Members.WithoutAbsent` | server.js:66 | A list without the id is returned unchanged |
| `Members.WithoutIdempotent` | server.js:66 | Filtering twice gives the same list as filtering once |
| `Members.WithoutEmpty` | server.js:66-67 | The filtered list is empty exactly when every entry of the original list is the leaving id |
| `Registry.Truthy` | server.js:62 | A stored nickname counts as true exactly when it is non-empty, which is the JavaScript truthiness of a string |
| `Registry.SetNickname` | server.js:25-33 | A name held by any connection (the requester included) yields `NicknameTaken` and changes nothing. Otherwise the requester holds the name (replacing its earlier one), `NicknameSet` is sent, no other entry changes and rooms are untouched |
| `Registry.CreateRoom` | server.js:36-41 | The room `code` holds exactly `[id]`, its code is added to the room keys, every other room and every nickname is unchanged, and `RoomCreated(code)` is sent |
| `Registry.JoinRoom` | server.js:44-52 | For a known code, `id` is appended at the end of that room's list, the room keys, other rooms and nicknames are unchanged, and `RoomJoined` is sent. For an unknown code, the state is unchanged and `Error("Salon introuvable")` is sent |
| `Registry.Message` | server.js:55-57 | Neither dictionary changes, and the data is broadcast as received |
| `Registry.ReleaseNickname` | server.js:61-64 | The leaving id keeps an entry exactly when its stored name is the empty string. Every other entry is kept with its value |
| `Registry.PurgeMember` | server.js:65-70 | An existing room survives exactly when its list filtered of the id is non-empty, and no new room appears. Each survivor's list is its old list filtered of the id, so it does not contain the id and is non-empty |
| `Registry.Disconnect` | server.js:60-72 | Disconnect emits nothing. An existing room survives exactly when its list filtered of the id is non-empty, and no new room appears. Each survivor's list is its old list filtered of the id, so the id is in no room and every room is non-empty. The id keeps a nickname entry exactly when its stored name was the empty string. Every other connection keeps its entry unchanged |
| `Registry.SetNicknameKeepsUnique` | server.js:26-30 | If nicknames are pairwise distinct before `set-nickname`, they are afterwards |
| `Registry.CreateRoomFreshAddsOne` | server.js:37-38 | With a code not in use, the number of rooms grows by exactly one |
| `Registry.JoinRoomTwiceDuplicates` | server.js:45-46 | Joining the same room twice appends `[id, id]`, so the id's occurrence count grows by two |
| `Registry.DisconnectDeletesExactlyEmptied` | server.js:65-70 | A room is deleted exactly when all its entries were the leaving id. A surviving room keeps every other member with the same multiplicity |
| `Registry.DisconnectIdempotent` | server.js:60-72 | Running disconnect twice gives the same state as running it once |
| `Registry.DisconnectFreesNickname` | server.js:26-29 | When nicknames are distinct, a non-empty nickname is free for any other connection once its holder disconnects. The reuse is shown through set-nickname's check (lines 26-29); the freeing itself is the deletion at server.js:61-64 |
| `Registry.EmptyNicknameStaysClaimed` | server.js:62-63 | An empty nickname is not released on disconnect, so any later claim of it is refused |
| `Registry.Handle` | server.js:21-73 | Dispatches each event to its handler. Only `set-nickname` and `disconnect` can change the nicknames, and only `create-room`, `join-room` and `disconnect` can change the rooms. Each handler sends its own kind of reply: taken or set, created, joined or error, broadcast, or nothing |
| `Registry.Run` | server.js:21-73 | Handlers run one after another in arrival order. A run of `message` events alone leaves both dictionaries unchanged |
| `Registry.RunAppend` | server.js:21-73 | Running two batches of events one after the other equals running their concatenation, so every handler starts from the finished state of the one before |
| `Registry.HandleKeepsValid` | server.js:25-72 | Every handler keeps the invariant: distinct nicknames and no empty room |
| `Registry.RunKeepsValid` | server.js:21-73 | Any sequence of handler runs keeps the invariant |
| `Registry.ReachableValid` | server.js:16-17 | Every state reachable from the two empty dictionaries satisfies the invariant |
| `SignalingServer.Server.constructor` | server.js:16-17 | Both dictionaries start empty, which satisfies the invariant |
| `SignalingServer.Server.SetNickname` | server.js:25-33 | The in-place update reaches the state and reply of `Registry.SetNickname` and keeps the invariant |
| `SignalingServer.Server.CreateRoom` | server.js:36-41 | The in-place update reaches the state and reply of `Registry.CreateRoom` and keeps the invariant |
| `SignalingServer.Server.JoinRoom` | server.js:44-52 | The in-place append reaches the state and reply of `Registry.JoinRoom` and keeps the invariant |
| `SignalingServer.Server.Message` | server.js:55-57 | Changes nothing (it may modify nothing) and replies as `Registry.Message` |
| `SignalingServer.Server.Disconnect` | server.js:60-72 | The loop over the room keys ends in exactly the state of `Registry.Disconnect` and keeps the invariant |

## Left out

- HTTP server, Express static files, `server.listen` and the port (server.js:1-2, 6-7, 19, 75-78): I/O plumbing.
- socket.io setup and CORS, `socket.join`, `socket.emit` and `io.to(...).emit` (server.js:8-13, 39-40, 47-48, 56): transport calls. The reply each handler would emit is returned as a `Reply` value instead. Delivery to a room follows socket.io's own subscriptions, not the `rooms` dictionary, so the set of recipients is not modelled.
- `uuidv4()` (server.js:4, 37): a random external generator. The room code is a parameter of `create-room`, with no freshness precondition, because the source does no collision check.
- `console.log` (server.js:22, 31, 71): logging only.
- Concurrency: the handlers run one at a time on Node's event loop, so they are atomic steps and no interleaving is modelled.
- JavaScript dynamic typing: nicknames, ids and room codes are strings. Non-string payloads (`null`, numbers, objects) are not modelled. Room codes that name `Object.prototype` properties (such as `constructor`) are not modelled either; in the source they would make `rooms[roomCode]` truthy for a room that does not exist.
- The `message` payload: the source forwards the whole client-supplied `data` object unchanged (server.js:56). The model reduces it to a room code and an opaque string body (`MessageData`), and any other fields the object carries are not modelled.
- The `nickname` argument that `create-room` and `join-room` receive and ignore (server.js:36, 44) is not modelled.
- Offer, answer, ICE-candidate and call-control routing do not appear in `server.js` and are not part of this model.
