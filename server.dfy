/**
 * The relay process: the module-level `users` and `rooms` maps and the
 * connection, message and close handlers that update them in place. Every
 * call of `ws.send` is recorded by appending to `outbox`. Each handler is
 * proved to leave the tables and the outbox exactly as the corresponding
 * function of module Registry says. Each handler the event loop calls also
 * states whether it keeps `Valid()`.
 */
module Server {
  import opened Envelopes
  import opened Members
  import opened Registry

  lemma ConcatAssoc<T>(a: seq<T>, b: seq<T>, c: seq<T>)
    ensures (a + b) + c == a + (b + c)
  {
  }

  class Relay {
    var users: map<UserId, User>
    var rooms: map<RoomId, seq<UserId>>
    var outbox: seq<Send>

    function Snapshot(): (s: State)
      reads this
    {
      State(users, rooms)
    }

    ghost predicate Valid()
      reads this
    {
      Consistent(Snapshot())
    }

    /** The process starts with both tables empty and nothing sent. */
    constructor ()
      ensures Snapshot() == Empty() && outbox == []
      ensures Valid()
    {
      users := map[];
      rooms := map[];
      outbox := [];
    }

    /** The `connection` handler: register the connection with no room and
        send it its id. The id is drawn by the caller and must be new. */
    method OnConnection(u: UserId)
      requires u !in users
      modifies this
      ensures Snapshot() == Connect(old(Snapshot()), u).after
      ensures outbox == old(outbox) + Connect(old(Snapshot()), u).sent
      ensures old(Valid()) ==> Valid()
    {
      users := users[u := User(true, None)];
      outbox := outbox + [Send(u, UserIdAssigned(u))];
    }

    /** The transport of `u` leaves the OPEN state (closing or closed) before
        its `close` event is delivered. No handler of the relay runs. */
    method TransportClosing(u: UserId)
      requires u in users
      modifies this
      ensures users == old(users)[u := old(users)[u].(open := false)]
      ensures rooms == old(rooms) && outbox == old(outbox)
      ensures old(Valid()) ==> Valid()
    {
      users := users[u := users[u].(open := false)];
    }

    /** `broadcastToRoom`: iterate over the room's set in order and write
        `env` to every member that is not `exclude`, is registered and OPEN. */
    method BroadcastToRoom(r: RoomId, env: Envelope, exclude: UserId)
      modifies this`outbox
      ensures outbox == old(outbox) + Broadcast(Snapshot(), r, env, exclude)
    {
      if r !in rooms {
        return;
      }
      var members := rooms[r];
      var i := 0;
      while i < |members|
        invariant 0 <= i <= |members|
        invariant outbox == old(outbox) + Fanout(Recipients(users, members[..i], exclude), env)
      {
        var v := members[i];
        assert members[..i + 1][..i] == members[..i];
        if v != exclude && v in users && users[v].open {
          outbox := outbox + [Send(v, env)];
        }
        i := i + 1;
      }
      assert members[..i] == members;
    }

    /** `handleLeaveRoom`. */
    method LeaveRoom(u: UserId)
      modifies this
      ensures Snapshot() == Leave(old(Snapshot()), u).after
      ensures outbox == old(outbox) + Leave(old(Snapshot()), u).sent
      ensures old(Valid()) ==> Valid()
    {
      if u in users && users[u].roomId.Some? {
        var r := users[u].roomId.value;
        if r in rooms {
          var rest := Remove(rooms[r], u);
          rooms := rooms[r := rest];
          BroadcastToRoom(r, UserLeft(u, rest), u);
          if |rest| == 0 {
            rooms := rooms - {r};
          }
        }
        users := users[u := users[u].(roomId := None)];
      }
      if old(Valid()) {
        LeaveKeepsConsistency(old(Snapshot()), u);
      }
    }

    /** `handleCreateRoom`, as written: the creator does not leave its
        current room. `r` is the id the generator drew. */
    method CreateRoom(u: UserId, r: RoomId)
      requires u in users
      modifies this
      ensures Snapshot() == Create(old(Snapshot()), u, r).after
      ensures outbox == old(outbox) + Create(old(Snapshot()), u, r).sent
      ensures old(Valid()) ==>
        (Valid() <==> old(users[u].roomId) == None || old(users[u].roomId) == Some(r))
    {
      ghost var s0 := Snapshot();
      if r !in rooms {
        rooms := rooms[r := []];
      }
      assert rooms[r] == MembersOf(s0, r);
      rooms := rooms[r := Add(rooms[r], u)];
      assert rooms == s0.rooms[r := Add(MembersOf(s0, r), u)];
      users := users[u := users[u].(roomId := Some(r))];
      outbox := outbox + [Send(u, RoomCreated(r, rooms[r]))];
      if old(Valid()) {
        CreateConsistentIff(s0, u, r);
      }
    }

    /** `handleJoinRoom`, as written. */
    method JoinRoom(u: UserId, target: Option<RoomId>)
      requires u in users
      modifies this
      ensures Snapshot() == Join(old(Snapshot()), u, target).after
      ensures outbox == old(outbox) + Join(old(Snapshot()), u, target).sent
      ensures old(Valid()) ==> Valid()
    {
      ghost var s0 := Snapshot();
      ghost var o := Join(s0, u, target);
      if target == None || target.value !in rooms {
        outbox := outbox + [Send(u, ErrorReply(RoomNotFound))];
      } else {
        var r := target.value;
        ghost var left := Leave(s0, u);
        JoinSteps(s0, u, r);
        if users[u].roomId.Some? {
          LeaveRoom(u);
        }
        assert users == left.after.users && rooms == left.after.rooms;
        assert outbox == old(outbox) + left.sent;
        // when the leave dropped the room itself, `rooms.get(roomId).add(userId)`
        // throws a TypeError; the `message` handler catches it and nothing
        // more happens
        if r in rooms {
          ghost var entered := Enter(left.after, u, r);
          EnterRoom(u, r);
          ConcatAssoc(old(outbox), left.sent, entered.sent);
        }
      }
      if old(Valid()) {
        JoinKeepsConsistency(s0, u, target);
      }
    }

    /** The second half of `handleJoinRoom`, once any leave is done. */
    method EnterRoom(u: UserId, r: RoomId)
      requires u in users && r in rooms
      modifies this
      ensures Snapshot() == Enter(old(Snapshot()), u, r).after
      ensures outbox == old(outbox) + Enter(old(Snapshot()), u, r).sent
    {
      rooms := rooms[r := Add(rooms[r], u)];
      users := users[u := users[u].(roomId := Some(r))];
      var participants := rooms[r];
      var reply := [Send(u, RoomJoined(r, participants))];
      outbox := outbox + reply;
      BroadcastToRoom(r, UserJoined(u, participants), u);
      ConcatAssoc(old(outbox), reply, Broadcast(Snapshot(), r, UserJoined(u, participants), u));
    }

    /** The `message` handler: dispatch on the envelope's `type`. Forwarding
        and chat are handled inline, as in the source. `newRoom` is the id
        the generator would draw for a `create-room`. */
    method OnMessage(u: UserId, msg: Inbound, newRoom: RoomId)
      requires u in users
      modifies this
      ensures Snapshot() == Dispatch(old(Snapshot()), u, msg, newRoom).after
      ensures outbox == old(outbox) + Dispatch(old(Snapshot()), u, msg, newRoom).sent
      ensures old(Valid()) ==>
        (msg.Object? && Kind(msg.fields) == Some("create-room") && old(users[u].roomId).Some?) || Valid()
    {
      if msg.Malformed? {
        return;
      }
      var data := msg.fields;
      var kind := Kind(data);
      if kind == Some("join-room") {
        JoinRoom(u, IdField(data, "roomId"));
      } else if kind == Some("create-room") {
        CreateRoom(u, newRoom);
      } else if kind == Some("leave-room") {
        LeaveRoom(u);
      } else if kind == Some("offer") || kind == Some("answer") || kind == Some("candidate") {
        var target := IdField(data, "targetUserId");
        if users[u].roomId.Some? && target.Some? {
          var v := target.value;
          if v in users && users[v].open {
            outbox := outbox + [Send(v, Relayed(data["userId" := JString(u)]))];
          }
        }
      } else if kind == Some("chat-message") {
        if users[u].roomId.Some? {
          BroadcastToRoom(users[u].roomId.value, Relayed(data), u);
        }
      }
      if old(Valid()) {
        DispatchKeepsConsistency(old(Snapshot()), u, msg, newRoom);
      }
    }

    /** The `close` handler: leave the room, then unregister. */
    method OnClose(u: UserId)
      modifies this
      ensures Snapshot() == Close(old(Snapshot()), u).after
      ensures outbox == old(outbox) + Close(old(Snapshot()), u).sent
      ensures old(Valid()) ==> Valid() && u !in users
    {
      LeaveRoom(u);
      users := users - {u};
      if old(Valid()) {
        CloseForgets(old(Snapshot()), u);
      }
    }
  }
}
