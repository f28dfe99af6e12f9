/**
 * Concrete exchanges with two connections "A" and "B" and a room "R",
 * driven through the `message` and `close` handlers.
 */
module Scenarios {
  import opened Envelopes
  import opened Registry
  import Members

  const A: UserId := "A"
  const B: UserId := "B"
  const R: RoomId := "R"
  const R2: RoomId := "R2"

  function Msg(kind: string): (m: Inbound)
  {
    Object(map["type" := JString(kind)])
  }

  function JoinMsg(r: RoomId): (m: Inbound)
  {
    Object(map["type" := JString("join-room"), "roomId" := JString(r)])
  }

  /** A `create-room` envelope reaches the create handler. */
  lemma DispatchCreate(s: State, u: UserId, r: RoomId)
    requires u in s.users
    ensures Dispatch(s, u, Msg("create-room"), r) == Create(s, u, r)
  {
    assert Kind(Msg("create-room").fields) == Some("create-room");
  }

  /** A `join-room` envelope naming `r` reaches the join handler. */
  lemma DispatchJoin(s: State, u: UserId, r: RoomId, newRoom: RoomId)
    requires u in s.users
    ensures Dispatch(s, u, JoinMsg(r), newRoom) == Join(s, u, Some(r))
  {
    assert Kind(JoinMsg(r).fields) == Some("join-room");
    assert IdField(JoinMsg(r).fields, "roomId") == Some(r);
  }

  /** A and B connected, no rooms. */
  function TwoConnected(): (s: State)
    ensures Consistent(s)
  {
    Connect(Connect(Empty(), A).after, B).after
  }

  /** A in R, B connected but in no room. */
  function OnlyAInRoom(): (s: State)
  {
    State(map[A := User(true, Some(R)), B := User(true, None)], map[R := [A]])
  }

  /** A and B both in R, A first. */
  function BothInRoom(): (s: State)
  {
    State(map[A := User(true, Some(R)), B := User(true, Some(R))], map[R := [A, B]])
  }

  /** A's create-room is answered with `room-created` listing only A. */
  lemma CreateAnswersCreator()
    ensures Dispatch(TwoConnected(), A, Msg("create-room"), R) ==
      Outcome(OnlyAInRoom(), [Send(A, RoomCreated(R, [A]))])
  {
  }

  /** B's join-room is answered with the list [A, B], and A is told that B
      joined, with the same list. */
  lemma JoinAnswersAndAnnounces()
    ensures Dispatch(OnlyAInRoom(), B, JoinMsg(R), R2) ==
      Outcome(BothInRoom(), [Send(B, RoomJoined(R, [A, B])), Send(A, UserJoined(B, [A, B]))])
  {
    var s := OnlyAInRoom();
    var msg := JoinMsg(R);
    assert Kind(msg.fields) == Some("join-room");
    assert IdField(msg.fields, "roomId") == Some(R);
    assert Leave(s, B) == Outcome(s, []);
    assert Members.Add([A], B) == [A, B];
    assert State(s.users[B := s.users[B].(roomId := Some(R))], s.rooms[R := [A, B]]) == BothInRoom();
    assert Recipients(BothInRoom().users, [A, B], B) == [A] by {
      assert [A, B][..1] == [A];
      assert [A][..0] == [];
    }
    assert Broadcast(BothInRoom(), R, UserJoined(B, [A, B]), B) == [Send(A, UserJoined(B, [A, B]))];
  }

  /** Joining a room id that does not exist: an error and no room. */
  lemma JoinUnknownRoom()
    ensures Dispatch(TwoConnected(), B, JoinMsg(R), R2) ==
      Outcome(TwoConnected(), [Send(B, ErrorReply("Room not found"))])
  {
  }

  /** With A and B in R, B leaves: A is told with the list [A], and R stays. */
  lemma LeaveNotifiesRest()
    ensures Dispatch(BothInRoom(), B, Msg("leave-room"), R2) ==
      Outcome(State(map[A := User(true, Some(R)), B := User(true, None)], map[R := [A]]),
              [Send(A, UserLeft(B, [A]))])
  {
    assert Members.Remove([A, B], B) == [A];
    assert Recipients(BothInRoom().users, [A], B) == [A] by {
      assert [A][..0] == [];
    }
  }

  /** With only A in R, A's transport closes: R is gone. */
  lemma LastCloseDropsRoom()
    ensures Close(OnlyAInRoom(), A).after == State(map[B := User(true, None)], map[])
  {
    var s := OnlyAInRoom();
    assert Members.Remove([A], A) == [];
    assert Leave(s, A).after == State(s.users[A := User(true, None)], map[]);
    assert s.users[A := User(true, None)] - {A} == map[B := User(true, None)];
  }

  function Offer(): (f: Fields)
  {
    map["type" := JString("offer"), "targetUserId" := JString(B), "offer" := JString("sdp")]
  }

  /** An offer from A to B reaches B with `userId` set to A. */
  lemma OfferReachesPeer()
    ensures Dispatch(BothInRoom(), A, Object(Offer()), R2).sent ==
      [Send(B, Relayed(Offer()["userId" := JString(A)]))]
  {
    assert IdField(Offer(), "targetUserId") == Some(B);
  }

  /** Once B has disconnected, the same offer is dropped and A hears nothing. */
  lemma OfferToDepartedPeerDropped()
    ensures Dispatch(Close(BothInRoom(), B).after, A, Object(Offer()), R2).sent == []
  {
    assert IdField(Offer(), "targetUserId") == Some(B);
    assert B !in Close(BothInRoom(), B).after.users;
  }

  /** A listed in R and R2, its own entry naming R2. */
  function InTwoRooms(): (s: State)
  {
    State(map[A := User(true, Some(R2)), B := User(true, None)], map[R := [A], R2 := [A]])
  }

  /** A second create-room from A, already in R. */
  lemma CreateAgainKeepsOldRoom()
    ensures Dispatch(OnlyAInRoom(), A, Msg("create-room"), R2).after == InTwoRooms()
  {
    DispatchCreate(OnlyAInRoom(), A, R2);
    CreateSecondRoom();
  }

  lemma CreateSecondRoom()
    ensures Create(OnlyAInRoom(), A, R2).after == InTwoRooms()
  {
    var s := OnlyAInRoom();
    assert MembersOf(s, R2) == [] && Members.Add([], A) == [A];
    assert s.users[A := User(true, Some(R2))] == InTwoRooms().users;
    assert s.rooms[R2 := [A]] == InTwoRooms().rooms;
  }

  /** A's transport closes while it is listed in two rooms: only the room its
      entry names is cleaned up. */
  lemma CloseFromTwoRooms()
    ensures Close(InTwoRooms(), A).after == State(map[B := User(true, None)], map[R := [A]])
  {
    var s := InTwoRooms();
    assert Members.Remove([A], A) == [];
    assert s.rooms - {R2} == map[R := [A]];
    assert Leave(s, A).after == State(s.users[A := User(true, None)], map[R := [A]]);
    assert s.users[A := User(true, None)] - {A} == map[B := User(true, None)];
  }

  /** Finding: A creates R and then R2. A is listed in both rooms, and when A
      disconnects R keeps listing a user that no longer exists. */
  lemma CreateTwiceStrandsMember()
    ensures var c1 := Dispatch(TwoConnected(), A, Msg("create-room"), R);
      var c2 := Dispatch(c1.after, A, Msg("create-room"), R2);
      && c2.after.rooms == map[R := [A], R2 := [A]]
      && !Consistent(c2.after)
      && Close(c2.after, A).after.rooms == map[R := [A]]
      && A !in Close(c2.after, A).after.users
  {
    CreateAnswersCreator();
    CreateAgainKeepsOldRoom();
    CloseFromTwoRooms();
    var t := InTwoRooms();
    assert A in t.rooms[R] && t.users[A].roomId != Some(R);
  }

  /** Finding: A alone in R asks to join R. The leave deletes R, the add then
      throws: A ends in no room, R is gone, and A gets no reply. */
  lemma RejoinAloneLosesRoom()
    ensures var c := Dispatch(TwoConnected(), A, Msg("create-room"), R);
      var j := Dispatch(c.after, A, JoinMsg(R), R2);
      && j.sent == []
      && j.after.users[A].roomId == None
      && R !in j.after.rooms
  {
    var s := OnlyAInRoom();
    CreateAnswersCreator();
    DispatchJoin(s, A, R, R2);
    assert Members.Remove([A], A) == [];
    assert Leave(s, A) == Outcome(State(s.users[A := User(true, None)], map[]), []);
  }
}
