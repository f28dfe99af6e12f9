# Signaling relay: a Dafny model

`server.js` is a small WebSocket relay for browser video calls. It keeps two
tables in memory:

- `users` maps a connection id to the connection and to the room the user is
  in, if any;
- `rooms` maps a room id to the set of connection ids in it.

On top of these tables it runs the following handlers, as the model writes
them:

- A **connection** is registered and told its id.
- A **message** is parsed as JSON and dispatched on its `type`:
  - `create-room`, `join-room` and `leave-room` change the tables and
    notify the room;
  - `offer`, `answer` and `candidate` are forwarded to the connection named
    in `targetUserId`, stamped with the sender's id;
  - `chat-message` is broadcast to the rest of the sender's room.
- A **close** leaves the room and unregisters the connection.
- **broadcastToRoom** writes to each member of a room in the set's
  insertion order. It skips the excluded user, members that are no longer
  registered, and members whose transport is not OPEN.

The model has five modules:

- `Envelopes` (`envelopes.dfy`) holds the ids, the JSON values read from
  clients, and the envelopes the relay writes. It also holds the field
  readers that decide whether `type`, `roomId` or `targetUserId` is usable.
- `Members` (`members.dfy`) models a JavaScript `Set`. It is a sequence
  without duplicates, in insertion order, with `add` and `delete`. So
  participant lists and broadcast order are the source's.
- `Registry` (`registry.dfy`) is the specification layer. Each handler is a
  function from the tables before the handler to the tables after it, plus
  the `ws.send` calls it makes in order. This module also holds the
  consistency invariant and the lemmas about each handler:
  - every user's room lists the user;
  - every member of a room names that room;
  - no room is empty.
- `Server` (`server.dfy`) is the process itself. Class `Relay` holds the
  `users` and `rooms` fields and an `outbox` that records every `ws.send`.
  Its methods update the fields in the source's order.
  - `OnConnection`, `LeaveRoom`, `CreateRoom`, `JoinRoom`, `EnterRoom`,
    `OnMessage` and `OnClose` are each proved to leave the fields and the
    outbox exactly as the matching `Registry` function says.
  - `BroadcastToRoom` changes only the outbox, appending exactly
    `Registry.Broadcast` of the tables.
  - `TransportClosing` has no `Registry` counterpart; it states its new
    state directly.
  - `OnConnection`, `TransportClosing`, `LeaveRoom`, `JoinRoom` and
    `OnClose` keep the invariant. `OnMessage` keeps it except for
    `create-room` from a user already in a room, and `CreateRoom` keeps it
    exactly when the creator had no room or had this one.
  - `EnterRoom` makes no claim about the invariant: it is only called once
    the user is in no room, and `Registry.EnterPlaces` covers that case.
- `Scenarios` (`scenarios.dfy`) works through concrete exchanges between
  two connections.

Two behaviours of the source are stated, not hidden:

- `create-room` never leaves the creator's current room.
- Forwarding never checks that the target shares the sender's room.

### Behaviours of the code worth knowing

- **Chat messages.** `server.js:100-105` relays the client's object
  verbatim and adds nothing to it. The sender's id and a timestamp are in
  the envelope only because the browser client puts them there
  (`webrtc.js:588-591`). The model relays the fields unchanged.
- **Connection ids.** `server.js:67` would overwrite an existing entry if
  the generator repeated an id. The model makes the caller supply a fresh
  id (see `Server.Relay.OnConnection` under Left out).
- **Joining a room.** `server.js:153-155` leaves the current room even when
  it is the target room. `Registry.JoinLeavingOtherRoom` is the variant that
  leaves only a different room; see Findings.

## Model

| member | source | states |
|---|---|---|
| Envelopes.StringField | server.js:76 | the field is read exactly when it is present and a JSON string, and the value returned is that string |
| Envelopes.Kind | server.js:76-107 | the dispatcher sees a type exactly when `type` is a JSON string, and sees that string; any other value matches no case |
| Envelopes.IdField | server.js:90-91 | an id is taken from a field (`targetUserId` at server.js:90-91, `roomId` at server.js:78 and 147) exactly when it is a non-empty string, and is that string; absent, empty or non-string values never name a connection or a room |
| Members.Add | server.js:132 | `Set.add`: the element is then present, and nothing else is added; an existing set keeps its order as a prefix; adding a present element changes nothing; no duplicates are introduced |
| Members.Remove | server.js:187 | `Set.delete`: exactly the element is dropped; removing an absent element changes nothing; no duplicates; the size drops by one when the element was present, and the result is the set with that one position cut out, the rest in their order |
| Members.RemoveEmpty | server.js:197 | deleting a member empties the set exactly when it was the only member |
| Registry.AtMostOneRoom | server.js:133 | in a consistent state no user is listed in two rooms |
| Registry.Empty | server.js:54-55 | both tables start empty, and that state is consistent |
| Registry.RecipientsExactly | server.js:212-218 | a broadcast reaches a member exactly when it is not the excluded user, is registered and is OPEN |
| Registry.Recipients | server.js:212-218 | a broadcast writes to no more connections than the set has members |
| Registry.RecipientsDistinct | server.js:212-219 | iterating a set without duplicates writes to each member at most once |
| Registry.RecipientsInOrder | server.js:212 | the recipients among the first k members of the set come first, so writes follow the set's insertion order |
| Registry.Broadcast | server.js:208-210 | a broadcast to a missing room writes nothing; it never writes more envelopes than the room has members |
| Registry.BroadcastOnceEach | server.js:212-219 | no connection is written to twice by one broadcast |
| Registry.BroadcastInOrder | server.js:212-219 | the writes for a prefix of the set are a prefix of the broadcast's writes |
| Registry.BroadcastExactly | server.js:208-220 | `broadcastToRoom` writes that envelope and no other; the recipients are exactly the eligible members of the room, and nobody is written to when the room is absent |
| Registry.Connect | server.js:65-121 | a new connection is registered OPEN with no room, and nobody else is changed; it is sent `user-id` with its own id; consistency is kept |
| Registry.Leave | server.js:179-206 | a no-op for an unknown user or one without a room; otherwise the user's room is cleared, other users and other rooms are untouched, and no room is created |
| Registry.LeaveKeepsConsistency | server.js:179-206 | leaving keeps the tables consistent |
| Registry.LeaveDetaches | server.js:186-203 | after a leave the user is in no room; its room survives exactly when others remain, and holds them in their order; `user-left` with that list reaches exactly the remaining eligible members |
| Registry.LeaveNotifiesOnceEachInOrder | server.js:190-194 | the `user-left` writes of a leave go to each remaining member at most once, following the order of the remaining set |
| Registry.FanoutOnceEachInOrder | server.js:212-219 | writing one envelope to the recipients of a set without duplicates writes to each at most once, in the set's order |
| Registry.LeaveIdempotent | server.js:182 | a second leave changes nothing and sends nothing |
| Registry.Close | server.js:114-118 | the close handler sends what the leave sends; the rooms afterwards are those the leave leaves; the user is no longer registered and every other user's entry is unchanged |
| Registry.CloseForgets | server.js:114-118 | after a close the user is in neither table, and consistency is kept |
| Registry.LastCloseCollectsRoom | server.js:196-199 | when the last member disconnects, the room disappears and a later join of it gets "Room not found" |
| Registry.Create | server.js:124-142 | the creator is listed in the room, and its entry names the room; a new room holds only the creator; a room whose id was drawn again keeps its members, in order, ahead of the creator, and gains the creator and no one else; a set without duplicates stays without duplicates; the reply `room-created` goes to the creator alone with the member list; other users and other rooms are untouched |
| Registry.CreateKeepsConsistency | server.js:124-133 | a creator with no room keeps the tables consistent |
| Registry.CreateFromOtherRoomBreaksConsistency | server.js:124-133 | a creator already in another room stays listed there while its entry names the new room, so the tables become inconsistent |
| Registry.CreateConsistentIff | server.js:124-133 | create keeps the tables consistent if and only if the creator had no room (or had this one) |
| Registry.CreateLeavingFirstConsistent | server.js:124-133 | a create that leaves the current room first keeps consistency from every consistent state, and puts the creator in the new room only |
| Registry.Enter | server.js:157-174 | the user is added to the target set, keeping the existing members in order ahead of it, and no one else is added; a set without duplicates stays without duplicates; its entry names the room; other users and other rooms are untouched and no room appears or disappears; the user gets `room-joined` with the new list, then the room's broadcast of `user-joined` follows |
| Registry.EnterPlaces | server.js:157-158 | a user outside any room who is added to a room is in that room's set only, and consistency is kept |
| Registry.Join | server.js:144-150 | an absent or unknown room id is answered with the error "Room not found" and changes nothing; the users table keeps its keys |
| Registry.JoinFrame | server.js:144-177 | a join creates no room, changes no other user's entry, and leaves every room other than the joiner's former room and the target as it was |
| Registry.JoinKeepsConsistency | server.js:144-177 | every join keeps the tables consistent |
| Registry.JoinPlacesJoiner | server.js:152-158 | apart from rejoining a room one is alone in, the joiner ends up in the target room's set only, with that room as its room |
| Registry.JoinNotifies | server.js:160-174 | the joiner alone gets `room-joined` with the full member list, which includes it; `user-joined` with the same list reaches exactly the other eligible members |
| Registry.LeaveSendsUserLeft | server.js:190-194 | a leave sends nothing but `user-left` |
| Registry.RejoinSoleRoomDropsUser | server.js:152-158 | rejoining the room one is alone in leaves the user in no room, deletes the room, and sends nothing |
| Registry.JoinLeavingOtherRoomPlacesJoiner | server.js:144-177 | a join that leaves only a different room always succeeds: the joiner is in the target only, is sent `room-joined`, and consistency is kept |
| Registry.Stamped | server.js:93-96 | the forwarded object is the client's, with `userId` set to the sender and every other field kept |
| Registry.Forward | server.js:86-99 | forwarding changes no table and sends at most one envelope; nothing is sent when the sender has no room or names no usable target |
| Registry.ForwardExactly | server.js:86-99 | forwarding changes no table and sends at most one envelope: the stamped copy, to the target, exactly when the sender has a room and the target is registered and OPEN |
| Registry.ForwardCrossesRooms | server.js:90-92 | a target in another room, or in none, still receives the forwarded envelope |
| Registry.Chat | server.js:100-105 | chat changes no table, and nothing is sent by a sender in no room |
| Registry.ChatExactly | server.js:100-105 | chat changes no table and relays the object verbatim to exactly the other eligible members of the sender's room, never to the sender |
| Registry.Dispatch | server.js:76-108 | dispatch never adds or removes a registered user |
| Registry.DispatchKeepsConsistency | server.js:71-112 | every message keeps the tables consistent, except `create-room` from a user already in a room; a message that is not an object, or has an unknown type, changes nothing and sends nothing |
| Server.Relay.constructor | server.js:53-55 | the process starts with empty tables and nothing sent |
| Server.Relay.OnConnection | server.js:65-121 | the fields become `Connect` of the old ones, and the outbox gains its send |
| Server.Relay.TransportClosing | server.js:215 | a transport leaving OPEN changes only that user's open flag |
| Server.Relay.BroadcastToRoom | server.js:208-220 | the loop over the set appends exactly `Broadcast` of the tables to the outbox |
| Server.Relay.LeaveRoom | server.js:179-206 | the in-place leave matches `Leave`, in both tables and outbox, and keeps consistency |
| Server.Relay.CreateRoom | server.js:124-142 | the in-place create matches `Create`; it keeps consistency if and only if the creator had no room (or this one) |
| Server.Relay.JoinRoom | server.js:144-177 | the in-place join, including the thrown and caught `add` after the room was dropped, matches `Join` and keeps consistency |
| Server.Relay.EnterRoom | server.js:157-174 | adding the user, the reply and the broadcast match `Enter` |
| Server.Relay.OnMessage | server.js:71-112 | the message handler matches `Dispatch`, and keeps consistency except for `create-room` from a user already in a room |
| Server.Relay.OnClose | server.js:114-118 | the close handler matches `Close`; afterwards the user is gone and consistency is kept |
| Scenarios.CreateAnswersCreator | server.js:124-142 | A's create-room is answered with `room-created` listing only A |
| Scenarios.JoinAnswersAndAnnounces | server.js:144-177 | B joining A's room gets `room-joined` with [A, B], and A gets `user-joined` with the same list |
| Scenarios.JoinUnknownRoom | server.js:147-149 | joining a missing room gives an error and nothing else |
| Scenarios.LeaveNotifiesRest | server.js:179-206 | when B leaves, A gets `user-left` with [A] and the room stays |
| Scenarios.LastCloseDropsRoom | server.js:114-118 | when the last member's transport closes, the room goes |
| Scenarios.OfferReachesPeer | server.js:86-99 | A's offer reaches B, stamped with A's id |
| Scenarios.OfferToDepartedPeerDropped | server.js:91-92 | an offer to a disconnected peer is dropped silently |
| Scenarios.CreateAgainKeepsOldRoom | server.js:124-133 | a second create leaves the creator listed in its first room too |
| Scenarios.CloseFromTwoRooms | server.js:114-118 | a close cleans up only the room the user's entry names |
| Scenarios.CreateTwiceStrandsMember | server.js:124-133 | after create, create, close, the first room keeps listing a user who is no longer registered |
| Scenarios.RejoinAloneLosesRoom | server.js:152-158 | a creator rejoining its own room loses it and hears nothing |

## Left out

- The HTTP static file server (`server.js:7-48`) is not part of this model.
- Random id generation (`server.js:57-63`) is not modelled. A connection id
  or room id is a parameter that the caller supplies. Ids are taken to be
  non-empty. The generator returns "" only when `Math.random()` yields
  exactly 0 (`"0".substring(2, 15)`), which the model does not cover.
- Server.Relay.OnConnection: requires an id not already registered. The
  source would overwrite an entry on a collision of its random ids.
- Server.Relay.CreateRoom: a drawn room id that names an existing room is
  handled as the source handles it: the creator is appended to that room's
  set. How often the generator collides is not modelled.
- The WebSocket library and JSON are reduced:
  - parsing and serialisation are not modelled;
  - an inbound frame is either a JSON object or `Malformed`, which covers
    parse errors and non-object values, both of which end in the `catch` or
    the `default` branch;
  - numbers are integers, since the relay never reads them;
  - an outbound envelope is recorded by structure, not as text.
- A transport's `readyState` is reduced to an `open` flag, set false by
  `TransportClosing`. The direct replies (`user-id`, `room-created`,
  `room-joined`, `error`) are recorded without a state check, as in the
  source. What the library does with a write to a closing socket is not
  modelled.
- Logging (`console.log`, `console.error`) is not modelled.
- Handlers are modelled as running one at a time, as on the Node event loop.
  Delivery order and timing between connections are not modelled.
- `webrtc.js`, the browser client, is not part of this model.

## Findings

| source | as written | input that shows it | evidently intended | confidence | as-written member | corrected member |
|---|---|---|---|---|---|---|
| server.js:124-133 | `handleCreateRoom` adds the creator to the new room and overwrites its room without leaving the old one | A creates R, then creates R2: A is listed in R and R2; when A disconnects, R keeps listing A | leave the current room first, as `handleJoinRoom` does | not executed | Registry.CreateFromOtherRoomBreaksConsistency | Registry.CreateLeavingFirstConsistent |
| server.js:152-158 | `handleJoinRoom` always leaves the current room before adding the user to the target | A, alone in R, sends `join-room` for R: the leave deletes R, then `rooms.get(R).add` throws and the error is caught; A ends in no room and gets no reply | leave only a different room, so the join always takes | not executed | Registry.RejoinSoleRoomDropsUser | Registry.JoinLeavingOtherRoomPlacesJoiner |
