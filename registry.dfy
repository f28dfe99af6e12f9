/**
 * The relay's two tables and what each handler does to them, as functions
 * from the tables before a handler runs to the tables after it and the
 * envelopes it sends. The imperative `Relay` class in module Server is
 * proved to update its fields exactly as these functions say.
 */
module Registry {
  import opened Envelopes
  import opened Members

  /** A registered connection: whether its transport is OPEN, and its room. */
  datatype User = User(open: bool, roomId: Option<RoomId>)

  /** The `users` table (connection id to user) and the `rooms` table (room id
      to its member set, in insertion order). */
  datatype State = State(users: map<UserId, User>, rooms: map<RoomId, seq<UserId>>)

  /** The tables after a handler ran, and the sends it issued, in order. */
  datatype Outcome = Outcome(after: State, sent: seq<Send>)

  const RoomNotFound := "Room not found"

  /** A user's room exists and lists the user. */
  ghost predicate RoomsListTheirUsers(s: State)
  {
    forall u :: u in s.users && s.users[u].roomId.Some? ==>
      s.users[u].roomId.value in s.rooms && u in s.rooms[s.users[u].roomId.value]
  }

  /** Every member of a room is a registered user whose room it is. Since a
      user names one room, this is also "a user is in at most one room". */
  ghost predicate MembersNameTheirRoom(s: State)
  {
    forall r, u :: r in s.rooms && u in s.rooms[r] ==>
      u in s.users && s.users[u].roomId == Some(r)
  }

  /** A room exists only while its set has members (and a set has no
      duplicates). */
  ghost predicate RoomsNonEmpty(s: State)
  {
    forall r :: r in s.rooms ==> s.rooms[r] != [] && Distinct(s.rooms[r])
  }

  /** Membership is mutually consistent and rooms are never empty. */
  ghost predicate Consistent(s: State)
  {
    RoomsListTheirUsers(s) && MembersNameTheirRoom(s) && RoomsNonEmpty(s)
  }

  /** A consistent state never lists a user in two rooms. */
  lemma AtMostOneRoom(s: State, u: UserId, r1: RoomId, r2: RoomId)
    requires Consistent(s)
    requires r1 in s.rooms && u in s.rooms[r1]
    requires r2 in s.rooms && u in s.rooms[r2]
    ensures r1 == r2
  {
    assert s.users[u].roomId == Some(r1);
    assert s.users[u].roomId == Some(r2);
  }

  /** The state a fresh process starts in: no users and no rooms. */
  function Empty(): (s: State)
    ensures Consistent(s)
  {
    State(map[], map[])
  }

  // ---------------------------------------------------------------------
  // Broadcast
  // ---------------------------------------------------------------------

  /** `broadcastToRoom` writes to a member unless it is the excluded user,
      it is no longer registered, or its transport is not OPEN. */
  predicate Receives(users: map<UserId, User>, v: UserId, exclude: UserId)
  {
    v != exclude && v in users && users[v].open
  }

  /** The members a broadcast reaches, in the set's iteration order. */
  function Recipients(users: map<UserId, User>, members: seq<UserId>, exclude: UserId): (to: seq<UserId>)
    ensures |to| <= |members|
  {
    if members == [] then []
    else
      var v := members[|members| - 1];
      Recipients(users, members[..|members| - 1], exclude)
        + (if Receives(users, v, exclude) then [v] else [])
  }

  /** A member of the set is written to at most once. */
  lemma {:induction false} RecipientsDistinct(users: map<UserId, User>, members: seq<UserId>, exclude: UserId)
    requires Distinct(members)
    ensures Distinct(Recipients(users, members, exclude))
  {
    if members != [] {
      var init := members[..|members| - 1];
      var v := members[|members| - 1];
      var before := Recipients(users, init, exclude);
      DistinctSnoc(members);
      RecipientsDistinct(users, init, exclude);
      RecipientsExactly(users, init, exclude);
      if Receives(users, v, exclude) {
        DistinctSnoc(before + [v]);
      }
    }
  }

  /** The recipients of a prefix of the set are a prefix of the recipients:
      members earlier in the set are written to earlier. */
  lemma {:induction false} RecipientsInOrder(users: map<UserId, User>, members: seq<UserId>, exclude: UserId)
    ensures forall k :: 0 <= k <= |members| ==>
      Recipients(users, members[..k], exclude) <= Recipients(users, members, exclude)
  {
    if members != [] {
      var init := members[..|members| - 1];
      RecipientsInOrder(users, init, exclude);
      forall k | 0 <= k <= |members|
        ensures Recipients(users, members[..k], exclude) <= Recipients(users, members, exclude)
      {
        if k < |members| {
          assert members[..k] == init[..k];
        } else {
          assert members[..k] == members;
        }
      }
    }
  }

  /** The same envelope written to each connection in turn. */
  function Fanout(to: seq<UserId>, env: Envelope): (sent: seq<Send>)
    ensures |sent| == |to|
    ensures forall i :: 0 <= i < |to| ==> sent[i] == Send(to[i], env)
  {
    seq(|to|, i requires 0 <= i < |to| => Send(to[i], env))
  }

  /** The sends of `broadcastToRoom(r, env, exclude)`; none if the room is absent. */
  function Broadcast(s: State, r: RoomId, env: Envelope, exclude: UserId): (sent: seq<Send>)
    ensures r !in s.rooms ==> sent == []
    ensures |sent| <= (if r in s.rooms then |s.rooms[r]| else 0)
  {
    if r in s.rooms then Fanout(Recipients(s.users, s.rooms[r], exclude), env) else []
  }

  /** In a room whose set has no duplicates, no connection is written to
      twice by one broadcast. */
  lemma BroadcastOnceEach(s: State, r: RoomId, env: Envelope, exclude: UserId)
    requires r in s.rooms && Distinct(s.rooms[r])
    ensures var sent := Broadcast(s, r, env, exclude);
      forall i, j :: 0 <= i < j < |sent| ==> sent[i].to != sent[j].to
  {
    RecipientsDistinct(s.users, s.rooms[r], exclude);
  }

  /** Broadcast order follows the set's order: the writes to the members of a
      prefix of the set come first. */
  lemma BroadcastInOrder(s: State, r: RoomId, env: Envelope, exclude: UserId)
    requires r in s.rooms
    ensures forall k :: 0 <= k <= |s.rooms[r]| ==>
      Fanout(Recipients(s.users, s.rooms[r][..k], exclude), env) <= Broadcast(s, r, env, exclude)
  {
    var ms := s.rooms[r];
    RecipientsInOrder(s.users, ms, exclude);
    forall k | 0 <= k <= |ms|
      ensures Fanout(Recipients(s.users, ms[..k], exclude), env) <= Broadcast(s, r, env, exclude)
    {
      var a := Recipients(s.users, ms[..k], exclude);
      var b := Recipients(s.users, ms, exclude);
      assert a <= b;
      assert Fanout(a, env) == Fanout(b, env)[..|a|];
    }
  }

  lemma {:induction false} RecipientsExactly(users: map<UserId, User>, members: seq<UserId>, exclude: UserId)
    ensures forall v :: v in Recipients(users, members, exclude) <==>
      v in members && Receives(users, v, exclude)
  {
    if members != [] {
      var init := members[..|members| - 1];
      RecipientsExactly(users, init, exclude);
      assert members == init + [members[|members| - 1]];
    }
  }

  lemma FanoutExactly(to: seq<UserId>, env: Envelope)
    ensures forall v, e :: Send(v, e) in Fanout(to, env) <==> v in to && e == env
  {
    forall v | v in to ensures Send(v, env) in Fanout(to, env) {
      var i :| 0 <= i < |to| && to[i] == v;
      assert Fanout(to, env)[i] == Send(v, env);
    }
  }

  /** A broadcast writes `env`, and only `env`, to exactly the members of the
      room that are not excluded, are registered and are OPEN. */
  lemma BroadcastExactly(s: State, r: RoomId, env: Envelope, exclude: UserId)
    ensures forall v, e :: Send(v, e) in Broadcast(s, r, env, exclude) <==>
      e == env && r in s.rooms && v in s.rooms[r] && Receives(s.users, v, exclude)
  {
    if r in s.rooms {
      RecipientsExactly(s.users, s.rooms[r], exclude);
      FanoutExactly(Recipients(s.users, s.rooms[r], exclude), env);
    }
  }

  // ---------------------------------------------------------------------
  // Connection and disconnection
  // ---------------------------------------------------------------------

  /** A new connection is registered with no room and is told its id. */
  function Connect(s: State, u: UserId): (o: Outcome)
    requires u !in s.users
    ensures o.after.users.Keys == s.users.Keys + {u} && o.after.rooms == s.rooms
    ensures o.after.users[u] == User(true, None)
    ensures forall v :: v in s.users ==> o.after.users[v] == s.users[v]
    ensures o.sent == [Send(u, UserIdAssigned(u))]
    ensures Consistent(s) ==> Consistent(o.after)
  {
    Outcome(State(s.users[u := User(true, None)], s.rooms), [Send(u, UserIdAssigned(u))])
  }

  /**
   * `handleLeaveRoom`: a no-op for an unknown user or one without a room.
   * Otherwise the user is removed from its room's set, the remaining members
   * are told with the post-removal list, the room is dropped once empty and
   * the user's room is cleared.
   */
  function Leave(s: State, u: UserId): (o: Outcome)
    ensures !(u in s.users && s.users[u].roomId.Some?) ==> o == Outcome(s, [])
    ensures o.after.users.Keys == s.users.Keys
    ensures u in s.users ==> o.after.users[u] == s.users[u].(roomId := None)
    ensures forall v :: v in s.users && v != u ==> o.after.users[v] == s.users[v]
    ensures forall r :: r in s.rooms && !(u in s.users && s.users[u].roomId == Some(r)) ==>
      r in o.after.rooms && o.after.rooms[r] == s.rooms[r]
    ensures o.after.rooms.Keys <= s.rooms.Keys
  {
    if u in s.users && s.users[u].roomId.Some? then
      var r := s.users[u].roomId.value;
      var users' := s.users[u := s.users[u].(roomId := None)];
      if r in s.rooms then
        var rest := Remove(s.rooms[r], u);
        var rooms' := if |rest| == 0 then s.rooms - {r} else s.rooms[r := rest];
        Outcome(State(users', rooms'), Fanout(Recipients(s.users, rest, u), UserLeft(u, rest)))
      else
        Outcome(State(users', s.rooms), [])
    else
      Outcome(s, [])
  }

  lemma LeaveKeepsConsistency(s: State, u: UserId)
    requires Consistent(s)
    ensures Consistent(Leave(s, u).after)
  {
    if u in s.users && s.users[u].roomId.Some? {
      var r := s.users[u].roomId.value;
      var t := Leave(s, u).after;
      var rest := Remove(s.rooms[r], u);
      forall v | v in t.users && t.users[v].roomId.Some?
        ensures t.users[v].roomId.value in t.rooms && v in t.rooms[t.users[v].roomId.value]
      {
        var rv := t.users[v].roomId.value;
        if rv == r {
          assert v in rest;
        }
      }
    }
  }

  /**
   * Leaving from a room: afterwards the user is in no room's set and has no
   * room; its former room survives exactly when others remain, holding them
   * in their order; and `user-left` with that remaining list reaches exactly
   * the remaining members that are registered and OPEN.
   */
  lemma LeaveDetaches(s: State, u: UserId, r: RoomId)
    requires Consistent(s)
    requires u in s.users && s.users[u].roomId == Some(r)
    ensures var o := Leave(s, u);
      && o.after.users[u].roomId == None
      && (forall r' :: r' in o.after.rooms ==> u !in o.after.rooms[r'])
      && (r in o.after.rooms <==> s.rooms[r] != [u])
      && (r in o.after.rooms ==> o.after.rooms[r] == Remove(s.rooms[r], u))
      && (forall v, e :: Send(v, e) in o.sent <==>
            e == UserLeft(u, Remove(s.rooms[r], u)) && v in s.rooms[r] && Receives(s.users, v, u))
  {
    var o := Leave(s, u);
    var rest := Remove(s.rooms[r], u);
    RemoveEmpty(s.rooms[r], u);
    RecipientsExactly(s.users, rest, u);
    FanoutExactly(Recipients(s.users, rest, u), UserLeft(u, rest));
    forall r' | r' in o.after.rooms ensures u !in o.after.rooms[r'] {
      if r' != r && u in o.after.rooms[r'] {
        assert u in s.rooms[r'];
        AtMostOneRoom(s, u, r, r');
      }
    }
  }

  /** The `user-left` writes of a leave go to each remaining member at most
      once, in the order of the remaining set. */
  lemma LeaveNotifiesOnceEachInOrder(s: State, u: UserId, r: RoomId)
    requires Consistent(s)
    requires u in s.users && s.users[u].roomId == Some(r)
    ensures var sent := Leave(s, u).sent;
      var rest := Remove(s.rooms[r], u);
      && (forall i, j :: 0 <= i < j < |sent| ==> sent[i].to != sent[j].to)
      && (forall k :: 0 <= k <= |rest| ==>
            Fanout(Recipients(s.users, rest[..k], u), UserLeft(u, rest)) <= sent)
  {
    var rest := Remove(s.rooms[r], u);
    assert Leave(s, u).sent == Fanout(Recipients(s.users, rest, u), UserLeft(u, rest));
    FanoutOnceEachInOrder(s.users, rest, u, UserLeft(u, rest));
  }

  /** Writing one envelope to the recipients of a set without duplicates
      writes to each at most once, following the set's order. */
  lemma FanoutOnceEachInOrder(users: map<UserId, User>, members: seq<UserId>, exclude: UserId, env: Envelope)
    requires Distinct(members)
    ensures var sent := Fanout(Recipients(users, members, exclude), env);
      && (forall i, j :: 0 <= i < j < |sent| ==> sent[i].to != sent[j].to)
      && (forall k :: 0 <= k <= |members| ==>
            Fanout(Recipients(users, members[..k], exclude), env) <= sent)
  {
    var to := Recipients(users, members, exclude);
    RecipientsDistinct(users, members, exclude);
    RecipientsInOrder(users, members, exclude);
    forall k | 0 <= k <= |members|
      ensures Fanout(Recipients(users, members[..k], exclude), env) <= Fanout(to, env)
    {
      var pre := Recipients(users, members[..k], exclude);
      assert pre <= to;
      assert Fanout(pre, env) == Fanout(to, env)[..|pre|];
    }
  }

  /** A second leave finds the user outside any room: it changes nothing and
      sends nothing. */
  lemma LeaveIdempotent(s: State, u: UserId)
    ensures var t := Leave(s, u).after; Leave(t, u) == Outcome(t, [])
  {
  }

  /** On transport close the user leaves its room and is then unregistered. */
  function Close(s: State, u: UserId): (o: Outcome)
    ensures o.after.users.Keys == s.users.Keys - {u}
    ensures forall v :: v in o.after.users ==> o.after.users[v] == s.users[v]
    ensures o.after.rooms == Leave(s, u).after.rooms
    ensures o.sent == Leave(s, u).sent
  {
    var left := Leave(s, u);
    Outcome(State(left.after.users - {u}, left.after.rooms), left.sent)
  }

  /** After a close the user is gone from both tables and the tables stay
      consistent. */
  lemma CloseForgets(s: State, u: UserId)
    requires Consistent(s)
    ensures var t := Close(s, u).after;
      && Consistent(t)
      && u !in t.users
      && (forall r :: r in t.rooms ==> u !in t.rooms[r])
  {
    LeaveKeepsConsistency(s, u);
    var l := Leave(s, u).after;
    var t := Close(s, u).after;
    assert MembersNameTheirRoom(l);
    assert u !in l.users || l.users[u].roomId == None;
    assert t == State(l.users - {u}, l.rooms);
    assert forall r :: r in t.rooms ==> u !in t.rooms[r];
    assert RoomsListTheirUsers(t);
    assert MembersNameTheirRoom(t);
  }

  /**
   * Rooms are garbage-collected: when the last member disconnects its room
   * disappears, and any later `join-room` for that id is answered with
   * "Room not found".
   */
  lemma LastCloseCollectsRoom(s: State, u: UserId, r: RoomId, v: UserId)
    requires Consistent(s)
    requires u in s.users && s.users[u].roomId == Some(r) && s.rooms[r] == [u]
    requires v in Close(s, u).after.users
    ensures var t := Close(s, u).after;
      && r !in t.rooms
      && Join(t, v, Some(r)) == Outcome(t, [Send(v, ErrorReply(RoomNotFound))])
  {
    LeaveDetaches(s, u, r);
  }

  // ---------------------------------------------------------------------
  // create-room
  // ---------------------------------------------------------------------

  /** The member set stored under `r`, empty when there is no such room. */
  function MembersOf(s: State, r: RoomId): (ms: seq<UserId>)
    ensures r in s.rooms ==> ms == s.rooms[r]
    ensures r !in s.rooms ==> ms == []
  {
    if r in s.rooms then s.rooms[r] else []
  }

  /**
   * `handleCreateRoom` as written: the creator is added to the set under the
   * generated id (a new set unless the id is already taken) and its room is
   * overwritten, without leaving the room it may already be in. The reply
   * goes to the creator alone and lists the room's members.
   */
  function Create(s: State, u: UserId, r: RoomId): (o: Outcome)
    requires u in s.users
    ensures o.after.users.Keys == s.users.Keys
    ensures r in o.after.rooms && u in o.after.rooms[r]
    ensures o.after.users[u].roomId == Some(r)
    ensures o.sent == [Send(u, RoomCreated(r, o.after.rooms[r]))]
    ensures r !in s.rooms ==> o.after.rooms[r] == [u]
    ensures forall v :: v in o.after.rooms[r] <==> v in MembersOf(s, r) || v == u
    ensures Distinct(MembersOf(s, r)) ==> Distinct(o.after.rooms[r])
    ensures MembersOf(s, r) <= o.after.rooms[r]
    ensures forall v :: v in s.users && v != u ==> o.after.users[v] == s.users[v]
    ensures forall r' :: r' != r ==> (r' in o.after.rooms <==> r' in s.rooms)
    ensures forall r' :: r' in s.rooms && r' != r ==> o.after.rooms[r'] == s.rooms[r']
  {
    var members := Add(MembersOf(s, r), u);
    Outcome(State(s.users[u := s.users[u].(roomId := Some(r))], s.rooms[r := members]),
            [Send(u, RoomCreated(r, members))])
  }

  /** A creator with no room (or, by an id collision, already in this one)
      leaves the tables consistent. */
  lemma CreateKeepsConsistency(s: State, u: UserId, r: RoomId)
    requires Consistent(s) && u in s.users
    requires s.users[u].roomId == None || s.users[u].roomId == Some(r)
    ensures Consistent(Create(s, u, r).after)
  {
    CreateKeepsRoomsListing(s, u, r);
    CreateKeepsMembersNaming(s, u, r);
    assert Distinct(MembersOf(s, r));
  }

  lemma CreateKeepsRoomsListing(s: State, u: UserId, r: RoomId)
    requires Consistent(s) && u in s.users
    ensures RoomsListTheirUsers(Create(s, u, r).after)
  {
    var t := Create(s, u, r).after;
    forall v | v in t.users && t.users[v].roomId.Some?
      ensures t.users[v].roomId.value in t.rooms && v in t.rooms[t.users[v].roomId.value]
    {
      if v != u && t.users[v].roomId == Some(r) {
        assert v in MembersOf(s, r);
      }
    }
  }

  lemma CreateKeepsMembersNaming(s: State, u: UserId, r: RoomId)
    requires Consistent(s) && u in s.users
    requires s.users[u].roomId == None || s.users[u].roomId == Some(r)
    ensures MembersNameTheirRoom(Create(s, u, r).after)
  {
    var t := Create(s, u, r).after;
    forall r', v | r' in t.rooms && v in t.rooms[r']
      ensures v in t.users && t.users[v].roomId == Some(r')
    {
      if r' == r {
        if v != u {
          assert v in MembersOf(s, r);
          assert s.users[v].roomId == Some(r);
          assert t.users[v] == s.users[v];
        }
      } else {
        assert r' in s.rooms && v in s.rooms[r'];
        assert s.users[v].roomId == Some(r');
        assert t.users[v] == s.users[v];
      }
    }
  }

  /** A creator already in another room stays listed there while its room now
      names the new one: the tables are no longer consistent. */
  lemma CreateFromOtherRoomBreaksConsistency(s: State, u: UserId, r: RoomId)
    requires Consistent(s) && u in s.users
    requires s.users[u].roomId.Some? && s.users[u].roomId != Some(r)
    ensures var t := Create(s, u, r).after;
      var r0 := s.users[u].roomId.value;
      && r0 in t.rooms && u in t.rooms[r0] && u in t.rooms[r]
      && !Consistent(t)
  {
    var t := Create(s, u, r).after;
    var r0 := s.users[u].roomId.value;
    assert u in t.rooms[r0] && t.users[u].roomId != Some(r0);
    assert !MembersNameTheirRoom(t);
  }

  /** Create keeps the tables consistent exactly when the creator had no
      room, or had this very one. */
  lemma CreateConsistentIff(s: State, u: UserId, r: RoomId)
    requires Consistent(s) && u in s.users
    ensures Consistent(Create(s, u, r).after) <==>
      (s.users[u].roomId == None || s.users[u].roomId == Some(r))
  {
    if s.users[u].roomId == None || s.users[u].roomId == Some(r) {
      CreateKeepsConsistency(s, u, r);
    } else {
      CreateFromOtherRoomBreaksConsistency(s, u, r);
    }
  }

  /** What create-room is evidently meant to do: leave the current room first,
      as join-room does. */
  function CreateLeavingFirst(s: State, u: UserId, r: RoomId): (o: Outcome)
    requires u in s.users
  {
    var left := Leave(s, u);
    var created := Create(left.after, u, r);
    Outcome(created.after, left.sent + created.sent)
  }

  /** The corrected create-room keeps the tables consistent from every
      consistent state, and the creator ends up in the new room only. */
  lemma CreateLeavingFirstConsistent(s: State, u: UserId, r: RoomId)
    requires Consistent(s) && u in s.users
    ensures var t := CreateLeavingFirst(s, u, r).after;
      && Consistent(t)
      && t.users[u].roomId == Some(r) && u in t.rooms[r]
      && (forall r' :: r' in t.rooms && r' != r ==> u !in t.rooms[r'])
  {
    var l := Leave(s, u).after;
    LeaveKeepsConsistency(s, u);
    CreateConsistentIff(l, u, r);
  }

  // ---------------------------------------------------------------------
  // join-room
  // ---------------------------------------------------------------------

  /**
   * The second half of `handleJoinRoom`, once any leave is done: the user is
   * added to the room's set and pointed at the room, gets `room-joined` with
   * the member list, and the other members get `user-joined` with it.
   */
  function Enter(t: State, u: UserId, r: RoomId): (o: Outcome)
    requires u in t.users && r in t.rooms
    ensures o.after.users.Keys == t.users.Keys && o.after.rooms.Keys == t.rooms.Keys
    ensures o.after.users[u] == t.users[u].(roomId := Some(r))
    ensures forall v :: v in t.users && v != u ==> o.after.users[v] == t.users[v]
    ensures forall r' :: r' in t.rooms && r' != r ==> o.after.rooms[r'] == t.rooms[r']
    ensures t.rooms[r] <= o.after.rooms[r] && u in o.after.rooms[r]
    ensures forall v :: v in o.after.rooms[r] <==> v in t.rooms[r] || v == u
    ensures Distinct(t.rooms[r]) ==> Distinct(o.after.rooms[r])
    ensures o.sent == [Send(u, RoomJoined(r, o.after.rooms[r]))]
                      + Broadcast(o.after, r, UserJoined(u, o.after.rooms[r]), u)
  {
    var participants := Add(t.rooms[r], u);
    var t' := State(t.users[u := t.users[u].(roomId := Some(r))], t.rooms[r := participants]);
    Outcome(t', [Send(u, RoomJoined(r, participants))] + Broadcast(t', r, UserJoined(u, participants), u))
  }

  /** Entering an existing room leaves the tables as creating it would. */
  lemma EnterIsCreate(t: State, u: UserId, r: RoomId)
    requires u in t.users && r in t.rooms
    ensures Enter(t, u, r).after == Create(t, u, r).after
  {
  }

  /** A user outside any room (or already in this one) who enters an
      existing room is then in that room's set only, and the tables stay
      consistent. */
  lemma EnterPlaces(t: State, u: UserId, r: RoomId)
    requires Consistent(t) && u in t.users && r in t.rooms
    requires t.users[u].roomId == None || t.users[u].roomId == Some(r)
    ensures var a := Enter(t, u, r).after;
      && Consistent(a)
      && r in a.rooms && u in a.rooms[r]
      && a.users[u].roomId == Some(r)
      && (forall r' :: r' in a.rooms && r' != r ==> u !in a.rooms[r'])
  {
    var a := Create(t, u, r).after;
    CreateKeepsConsistency(t, u, r);
    EnterIsCreate(t, u, r);
    assert MembersNameTheirRoom(a);
    forall r' | r' in a.rooms && r' != r ensures u !in a.rooms[r'] {
      assert a.users[u].roomId == Some(r);
    }
  }

  /**
   * `handleJoinRoom` as written. An absent or unknown room id is answered
   * with an error and changes nothing. Otherwise a user in a room leaves it
   * first; if that emptied and dropped the target room itself,
   * `rooms.get(roomId).add` throws and the handler stops there. Else the user
   * enters the room.
   */
  function Join(s: State, u: UserId, target: Option<RoomId>): (o: Outcome)
    requires u in s.users
    ensures (target == None || target.value !in s.rooms) ==>
      o == Outcome(s, [Send(u, ErrorReply(RoomNotFound))])
    ensures o.after.users.Keys == s.users.Keys
  {
    if target == None || target.value !in s.rooms then
      Outcome(s, [Send(u, ErrorReply(RoomNotFound))])
    else
      var r := target.value;
      // the source leaves only when the user has a room; Leave is a no-op otherwise
      var left := Leave(s, u);
      if r !in left.after.rooms then
        left
      else
        var entered := Enter(left.after, u, r);
        Outcome(entered.after, left.sent + entered.sent)
  }

  /** A join to an existing room is the leave followed, unless the leave
      dropped the room, by entering it. */
  lemma JoinSteps(s: State, u: UserId, r: RoomId)
    requires u in s.users && r in s.rooms
    ensures var left := Leave(s, u);
      && u in left.after.users
      && (r !in left.after.rooms ==> Join(s, u, Some(r)) == left)
      && (r in left.after.rooms ==>
            var entered := Enter(left.after, u, r);
            Join(s, u, Some(r)) == Outcome(entered.after, left.sent + entered.sent))
  {
  }

  lemma JoinKeepsConsistency(s: State, u: UserId, target: Option<RoomId>)
    requires Consistent(s) && u in s.users
    ensures Consistent(Join(s, u, target).after)
  {
    if target != None && target.value in s.rooms {
      var r := target.value;
      LeaveKeepsConsistency(s, u);
      var t := Leave(s, u).after;
      if r in t.rooms {
        assert t.users[u].roomId == None;
        CreateKeepsConsistency(t, u, r);
        EnterIsCreate(t, u, r);
      }
    }
  }

  /** A join touches no other user's entry, creates no room, and leaves
      every room other than the joiner's former room and the target as it
      was. */
  lemma JoinFrame(s: State, u: UserId, target: Option<RoomId>)
    requires u in s.users
    ensures var o := Join(s, u, target);
      && o.after.rooms.Keys <= s.rooms.Keys
      && (forall v :: v in s.users && v != u ==> o.after.users[v] == s.users[v])
      && (forall r' :: r' in s.rooms && s.users[u].roomId != Some(r') && target != Some(r') ==>
            r' in o.after.rooms && o.after.rooms[r'] == s.rooms[r'])
  {
    if target != None && target.value in s.rooms {
      JoinSteps(s, u, target.value);
    }
  }

  /** The one case where the join does not take: the user asks to join the
      room it is alone in. */
  predicate RejoinsSoleRoom(s: State, u: UserId, r: RoomId)
    requires u in s.users
  {
    s.users[u].roomId == Some(r) && r in s.rooms && s.rooms[r] == [u]
  }

  /**
   * Joining an existing room (other than rejoining one's own single-member
   * room) puts the joiner in that room's set with that room as its room, and
   * in no other room's set.
   */
  lemma JoinPlacesJoiner(s: State, u: UserId, r: RoomId)
    requires Consistent(s) && u in s.users && r in s.rooms
    requires !RejoinsSoleRoom(s, u, r)
    ensures var t := Join(s, u, Some(r)).after;
      && r in t.rooms && u in t.rooms[r]
      && t.users[u].roomId == Some(r)
      && (forall r' :: r' in t.rooms && r' != r ==> u !in t.rooms[r'])
  {
    JoinSteps(s, u, r);
    LeaveKeepsConsistency(s, u);
    var l := Leave(s, u).after;
    if s.users[u].roomId.Some? {
      LeaveDetaches(s, u, s.users[u].roomId.value);
      if s.users[u].roomId == Some(r) {
        assert s.rooms[r] != [u];
      }
    }
    assert r in l.rooms;
    EnterPlaces(l, u, r);
  }

  /**
   * The replies of a join that takes: the joiner alone gets `room-joined`
   * with the room's full member list, which includes it; `user-joined` with
   * the same list reaches exactly the other members that are registered and
   * OPEN, never the joiner.
   */
  lemma JoinNotifies(s: State, u: UserId, r: RoomId)
    requires Consistent(s) && u in s.users && r in s.rooms
    requires !RejoinsSoleRoom(s, u, r)
    ensures var o := Join(s, u, Some(r));
      var ps := o.after.rooms[r];
      && u in ps
      && Send(u, RoomJoined(r, ps)) in o.sent
      && (forall v, e :: Send(v, e) in o.sent && e.RoomJoined? ==> v == u && e == RoomJoined(r, ps))
      && (forall v :: Send(v, UserJoined(u, ps)) in o.sent <==>
            v in ps && Receives(o.after.users, v, u))
  {
    JoinPlacesJoiner(s, u, r);
    JoinSteps(s, u, r);
    var left := Leave(s, u);
    var entered := Enter(left.after, u, r);
    var ps := entered.after.rooms[r];
    LeaveSendsUserLeft(s, u);
    BroadcastExactly(entered.after, r, UserJoined(u, ps), u);
    SentInThreeParts(left.sent, Send(u, RoomJoined(r, ps)),
                     Broadcast(entered.after, r, UserJoined(u, ps), u), UserJoined(u, ps));
  }

  /** The sends of a join that takes, split by kind: the leave's are all
      `user-left`, then one `room-joined`, then the broadcast's, all carrying
      the same `user-joined`. */
  lemma SentInThreeParts(left: seq<Send>, reply: Send, rest: seq<Send>, joined: Envelope)
    requires forall v, e :: Send(v, e) in left ==> e.UserLeft?
    requires reply.env.RoomJoined? && joined.UserJoined?
    requires forall v, e :: Send(v, e) in rest ==> e == joined
    ensures reply in left + ([reply] + rest)
    ensures forall v, e :: Send(v, e) in left + ([reply] + rest) && e.RoomJoined? ==> Send(v, e) == reply
    ensures forall v :: Send(v, joined) in left + ([reply] + rest) <==> Send(v, joined) in rest
  {
  }

  /** Every envelope a leave sends is a `user-left`. */
  lemma LeaveSendsUserLeft(s: State, u: UserId)
    ensures forall v, e :: Send(v, e) in Leave(s, u).sent ==> e.UserLeft?
  {
    if u in s.users && s.users[u].roomId.Some? && s.users[u].roomId.value in s.rooms {
      var rest := Remove(s.rooms[s.users[u].roomId.value], u);
      FanoutExactly(Recipients(s.users, rest, u), UserLeft(u, rest));
    }
  }

  /**
   * Rejoining the room one is alone in, as written: the leave empties and
   * deletes the room, the following `add` throws, so the user ends in no
   * room, the room is gone and nothing is sent at all.
   */
  lemma RejoinSoleRoomDropsUser(s: State, u: UserId, r: RoomId)
    requires Consistent(s) && u in s.users
    requires RejoinsSoleRoom(s, u, r)
    ensures var o := Join(s, u, Some(r));
      && o.sent == []
      && o.after.users[u].roomId == None
      && r !in o.after.rooms
  {
    LeaveDetaches(s, u, r);
  }

  /** What join-room is evidently meant to do: leave the current room only
      when it is a different one, then always add the user to the target. */
  function JoinLeavingOtherRoom(s: State, u: UserId, target: Option<RoomId>): (o: Outcome)
    requires u in s.users
    ensures o.after.users.Keys == s.users.Keys
  {
    if target == None || target.value !in s.rooms then
      Outcome(s, [Send(u, ErrorReply(RoomNotFound))])
    else
      var r := target.value;
      var left := if s.users[u].roomId.Some? && s.users[u].roomId != Some(r)
                  then Leave(s, u) else Outcome(s, []);
      assert r in left.after.rooms;
      var entered := Enter(left.after, u, r);
      Outcome(entered.after, left.sent + entered.sent)
  }

  /** The corrected join always takes when the room exists: the joiner is in
      the target room only, is told so, and the tables stay consistent. */
  lemma JoinLeavingOtherRoomPlacesJoiner(s: State, u: UserId, r: RoomId)
    requires Consistent(s) && u in s.users && r in s.rooms
    ensures var o := JoinLeavingOtherRoom(s, u, Some(r));
      && Consistent(o.after)
      && r in o.after.rooms && u in o.after.rooms[r]
      && o.after.users[u].roomId == Some(r)
      && (forall r' :: r' in o.after.rooms && r' != r ==> u !in o.after.rooms[r'])
      && Send(u, RoomJoined(r, o.after.rooms[r])) in o.sent
  {
    if s.users[u].roomId.Some? && s.users[u].roomId != Some(r) {
      LeaveKeepsConsistency(s, u);
      LeaveDetaches(s, u, s.users[u].roomId.value);
      EnterPlaces(Leave(s, u).after, u, r);
    } else {
      EnterPlaces(s, u, r);
    }
  }

  // ---------------------------------------------------------------------
  // offer / answer / candidate, chat-message
  // ---------------------------------------------------------------------

  /** The forwarded copy of a signaling envelope: the client's object with
      `userId` set to the sender. */
  function Stamped(fields: Fields, u: UserId): (f: Fields)
    ensures f.Keys == fields.Keys + {"userId"}
    ensures f["userId"] == JString(u)
    ensures forall k :: k in fields && k != "userId" ==> f[k] == fields[k]
  {
    fields["userId" := JString(u)]
  }

  /** Unicast forwarding of `offer`, `answer` and `candidate`. */
  function Forward(s: State, u: UserId, fields: Fields): (o: Outcome)
    requires u in s.users
    ensures o.after == s && |o.sent| <= 1
    ensures s.users[u].roomId == None || IdField(fields, "targetUserId") == None ==> o.sent == []
  {
    if s.users[u].roomId.Some? && IdField(fields, "targetUserId").Some? then
      var v := IdField(fields, "targetUserId").value;
      if v in s.users && s.users[v].open then Outcome(s, [Send(v, Relayed(Stamped(fields, u)))])
      else Outcome(s, [])
    else
      Outcome(s, [])
  }

  /**
   * Forwarding changes no table and sends at most one envelope: the stamped
   * copy, to the target, exactly when the sender has a room and the target
   * is registered and OPEN. Whether the target shares the sender's room is
   * never consulted. Otherwise the envelope is dropped with no reply.
   */
  lemma ForwardExactly(s: State, u: UserId, fields: Fields)
    requires u in s.users
    ensures var o := Forward(s, u, fields);
      && o.after == s
      && |o.sent| <= 1
      && (forall v, e :: Send(v, e) in o.sent <==>
            && s.users[u].roomId.Some?
            && IdField(fields, "targetUserId") == Some(v)
            && v in s.users && s.users[v].open
            && e == Relayed(Stamped(fields, u)))
  {
  }

  /** The relay delivers signaling between users in different rooms (or to a
      user in no room) just as between room-mates. */
  lemma ForwardCrossesRooms(s: State, u: UserId, v: UserId, fields: Fields)
    requires u in s.users && v in s.users && s.users[v].open
    requires s.users[u].roomId.Some? && s.users[v].roomId != s.users[u].roomId
    requires IdField(fields, "targetUserId") == Some(v)
    ensures Forward(s, u, fields).sent == [Send(v, Relayed(Stamped(fields, u)))]
  {
  }

  /** `chat-message`: the client's object, verbatim, to the sender's room. */
  function Chat(s: State, u: UserId, fields: Fields): (o: Outcome)
    requires u in s.users
    ensures o.after == s
    ensures s.users[u].roomId == None ==> o.sent == []
  {
    match s.users[u].roomId
    case Some(r) => Outcome(s, Broadcast(s, r, Relayed(fields), u))
    case None => Outcome(s, [])
  }

  /** A chat message changes no table and reaches exactly the other members
      of the sender's room that are registered and OPEN; never the sender. */
  lemma ChatExactly(s: State, u: UserId, fields: Fields)
    requires u in s.users
    requires s.users[u].roomId.Some? ==> s.users[u].roomId.value in s.rooms
    ensures var o := Chat(s, u, fields);
      && o.after == s
      && (forall v, e :: Send(v, e) in o.sent <==>
            && s.users[u].roomId.Some?
            && v in s.rooms[s.users[u].roomId.value]
            && Receives(s.users, v, u)
            && e == Relayed(fields))
  {
    if s.users[u].roomId.Some? {
      BroadcastExactly(s, s.users[u].roomId.value, Relayed(fields), u);
    }
  }

  // ---------------------------------------------------------------------
  // Dispatch
  // ---------------------------------------------------------------------

  /**
   * The `message` handler: switch on `type`. `newRoom` is the id the
   * generator would draw for a `create-room`. Anything that is not a JSON
   * object, and any unknown type, is ignored.
   */
  function Dispatch(s: State, u: UserId, msg: Inbound, newRoom: RoomId): (o: Outcome)
    requires u in s.users
    ensures o.after.users.Keys == s.users.Keys
  {
    match msg
    case Malformed => Outcome(s, [])
    case Object(f) =>
      var kind := Kind(f);
      if kind == Some("join-room") then Join(s, u, IdField(f, "roomId"))
      else if kind == Some("create-room") then Create(s, u, newRoom)
      else if kind == Some("leave-room") then Leave(s, u)
      else if kind == Some("offer") || kind == Some("answer") || kind == Some("candidate") then
        Forward(s, u, f)
      else if kind == Some("chat-message") then Chat(s, u, f)
      else Outcome(s, [])
  }

  /** Only these `type` values do anything. */
  predicate Known(msg: Inbound)
  {
    msg.Object? &&
    Kind(msg.fields) in {Some("join-room"), Some("create-room"), Some("leave-room"),
                         Some("offer"), Some("answer"), Some("candidate"), Some("chat-message")}
  }

  /**
   * Every inbound envelope keeps the tables consistent, except a
   * `create-room` from a user that is already in a room; and one that is not
   * a JSON object, or has an unknown type, leaves no trace.
   */
  lemma DispatchKeepsConsistency(s: State, u: UserId, msg: Inbound, newRoom: RoomId)
    requires Consistent(s) && u in s.users
    ensures var o := Dispatch(s, u, msg, newRoom);
      && (!(msg.Object? && Kind(msg.fields) == Some("create-room") && s.users[u].roomId.Some?) ==>
            Consistent(o.after))
      && (!Known(msg) ==> o == Outcome(s, []))
  {
    if msg.Object? {
      var kind := Kind(msg.fields);
      if kind == Some("join-room") {
        JoinKeepsConsistency(s, u, IdField(msg.fields, "roomId"));
      } else if kind == Some("create-room") {
        CreateConsistentIff(s, u, newRoom);
      } else if kind == Some("leave-room") {
        LeaveKeepsConsistency(s, u);
      }
    }
  }
}
