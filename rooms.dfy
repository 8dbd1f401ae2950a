/**
  What the five socket handlers of the room server do to the global `rooms`
  map, stated on values. `rooms` maps a room id to a room, a room maps a
  socket id to its participant, both in JavaScript `Map` insertion order.
  Every `io.to(roomId).emit(...)` is an event appended to `log`.
  A handler runs to completion before the next one starts, so each is one
  function from the state before to the state after.
 */
module Rooms {
  import opened Wrappers
  import opened OrderedMaps
  import opened Participants

  type SocketId = string
  type RoomId = string

  /** One room: socket id to participant, in join order. */
  type Room = OMap<SocketId, Participant>

  /** What the server emits to the members of a room. */
  datatype Event =
    | RoomUpdate(roomId: RoomId, snapshot: seq<Participant>)
    | VotesRevealed(roomId: RoomId)
    | VotesReset(roomId: RoomId)

  datatype State = State(rooms: OMap<RoomId, Room>, log: seq<Event>)

  /** A stored room: well formed, never empty, and no spectator holds a vote. */
  predicate RoomOk(room: Room) {
    && room.Valid()
    && room.Size() > 0
    && forall id | id in room.entries :: room.entries[id].isSpectator ==> room.entries[id].vote == None
  }

  predicate Inv(s: State) {
    s.rooms.Valid() && forall r | r in s.rooms.entries :: RoomOk(s.rooms.entries[r])
  }

  /** The state at process start: no rooms, nothing emitted. */
  function Init(): (s: State)
    ensures Inv(s)
  {
    State(Empty(), [])
  }

  /** The room `join-room` writes into: the stored one, or a fresh empty `Map`. */
  function RoomOf(s: State, roomId: RoomId): (room: Room)
    requires Inv(s)
    ensures room.Valid()
  {
    if s.rooms.Has(roomId) then s.rooms.Get(roomId) else Empty()
  }

  // ---------------------------------------------------------------- join-room

  function Join(s: State, sock: SocketId, roomId: RoomId, userName: string, isSpectator: bool): (r: State)
    requires Inv(s)
    ensures Inv(r)
    ensures r.rooms.Has(roomId) && r.rooms.Get(roomId).Has(sock)
    ensures r.rooms.Get(roomId).Get(sock) == Participant(userName, None, isSpectator)
    ensures r.rooms.Get(roomId).SameOutside(RoomOf(s, roomId), sock)
    ensures RoomOf(s, roomId).Has(sock) ==> r.rooms.Get(roomId).keys == RoomOf(s, roomId).keys
    ensures !RoomOf(s, roomId).Has(sock) ==> r.rooms.Get(roomId).keys == RoomOf(s, roomId).keys + [sock]
    ensures r.rooms.SameOutside(s.rooms, roomId)
    ensures r.log == s.log + [RoomUpdate(roomId, r.rooms.Get(roomId).Values())]
  {
    var room := RoomOf(s, roomId).Set(sock, Participant(userName, None, isSpectator));
    State(s.rooms.Set(roomId, room), s.log + [RoomUpdate(roomId, room.Values())])
  }

  // --------------------------------------------------------------------- vote

  /** The guard of `vote`: the room exists, the socket is in it, and it is not a spectator. */
  predicate MayVote(s: State, sock: SocketId, roomId: RoomId) {
    s.rooms.Has(roomId) && s.rooms.Get(roomId).Has(sock) && !s.rooms.Get(roomId).Get(sock).isSpectator
  }

  function CastVote(s: State, sock: SocketId, roomId: RoomId, vote: Option<string>): (r: State)
    requires Inv(s)
    ensures Inv(r)
    ensures !MayVote(s, sock, roomId) ==> r == s
    ensures MayVote(s, sock, roomId) ==>
      && r.rooms.keys == s.rooms.keys
      && r.rooms.SameOutside(s.rooms, roomId)
      && r.rooms.Has(roomId)
      && r.rooms.Get(roomId).keys == s.rooms.Get(roomId).keys
      && r.rooms.Get(roomId).SameOutside(s.rooms.Get(roomId), sock)
      && r.rooms.Get(roomId).Get(sock) == s.rooms.Get(roomId).Get(sock).(vote := vote)
      && r.log == s.log + [RoomUpdate(roomId, r.rooms.Get(roomId).Values())]
  {
    if MayVote(s, sock, roomId) then
      var room := s.rooms.Get(roomId);
      var room' := room.Set(sock, room.Get(sock).(vote := vote));
      State(s.rooms.Set(roomId, room'), s.log + [RoomUpdate(roomId, room'.Values())])
    else
      s
  }

  // ------------------------------------------------------------- reveal-votes

  /** `participants.every(user => user.vote !== null)` over the non-spectators of a snapshot. */
  predicate AllVoted(snapshot: seq<Participant>) {
    forall i | 0 <= i < |snapshot| :: !snapshot[i].isSpectator ==> snapshot[i].vote.Some?
  }

  function RevealVotes(s: State, roomId: RoomId): (r: State)
    requires Inv(s)
    ensures r.rooms == s.rooms
    ensures r.log == s.log || r.log == s.log + [VotesRevealed(roomId)]
    ensures |r.log| == |s.log| + 1 <==>
      && s.rooms.Has(roomId)
      && forall id | id in s.rooms.Get(roomId).entries ::
           !s.rooms.Get(roomId).entries[id].isSpectator ==> s.rooms.Get(roomId).entries[id].vote.Some?
  {
    if s.rooms.Has(roomId) && AllVoted(s.rooms.Get(roomId).Values()) then
      State(s.rooms, s.log + [VotesRevealed(roomId)])
    else
      s
  }

  // -------------------------------------------------------------- reset-votes

  /** What the reset loop does to one participant. */
  function Cleared(p: Participant): Participant {
    if p.isSpectator then p else p.(vote := None)
  }

  function ResetRoom(room: Room): (r: Room)
    requires room.Valid()
    ensures r.Valid() && r.keys == room.keys
    ensures forall id | id in room.entries :: r.Has(id) && r.Get(id) == Cleared(room.Get(id))
  {
    OMap(room.keys, map id | id in room.entries :: Cleared(room.entries[id]))
  }

  /** A room that keeps `before`'s keys and holds each participant cleared is `ResetRoom(before)`. */
  lemma ResetRoomByKeys(before: Room, room: Room)
    requires before.Valid() && room.Valid() && room.keys == before.keys
    requires forall j | 0 <= j < |before.keys| :: room.Get(before.keys[j]) == Cleared(before.Get(before.keys[j]))
    ensures room == ResetRoom(before)
  {
    var r := ResetRoom(before);
    forall id | id in room.entries ensures room.entries[id] == r.entries[id] {
      var j :| 0 <= j < |before.keys| && before.keys[j] == id;
    }
    assert room.entries == r.entries;
  }

  function ResetVotes(s: State, roomId: RoomId): (r: State)
    requires Inv(s)
    ensures Inv(r)
    ensures !s.rooms.Has(roomId) ==> r == s
    ensures s.rooms.Has(roomId) ==>
      && r.rooms.keys == s.rooms.keys
      && r.rooms.SameOutside(s.rooms, roomId)
      && r.rooms.Has(roomId)
      && var before, after := s.rooms.Get(roomId), r.rooms.Get(roomId);
         && after.keys == before.keys
         && (forall id | id in before.entries :: after.Has(id) && after.Get(id) == before.Get(id).(vote := None))
         && r.log == s.log + [RoomUpdate(roomId, after.Values()), VotesReset(roomId)]
  {
    if s.rooms.Has(roomId) then
      var room := ResetRoom(s.rooms.Get(roomId));
      State(s.rooms.Set(roomId, room), s.log + [RoomUpdate(roomId, room.Values()), VotesReset(roomId)])
    else
      s
  }

  // ------------------------------------------------------------ disconnecting

  /** One pass of the `disconnecting` loop body, for the room `roomId`. */
  function LeaveRoom(s: State, sock: SocketId, roomId: RoomId): (r: State)
    requires Inv(s)
    ensures Inv(r)
  {
    if s.rooms.Has(roomId) && s.rooms.Get(roomId).Has(sock) then
      var room := s.rooms.Get(roomId).Delete(sock);
      if room.Size() == 0 then State(s.rooms.Delete(roomId), s.log)
      else State(s.rooms.Set(roomId, room), s.log + [RoomUpdate(roomId, room.Values())])
    else
      s
  }

  /** The `disconnecting` loop run over the room ids `ks`, in order. */
  function LeaveRooms(s: State, sock: SocketId, ks: seq<RoomId>): (r: State)
    requires Inv(s)
    ensures Inv(r)
  {
    if ks == [] then s else LeaveRoom(LeaveRooms(s, sock, ks[..|ks| - 1]), sock, ks[|ks| - 1])
  }

  /**
    The `room-update` events a disconnect owes, read off the state before it:
    one per room in `ks` that holds the socket and someone else, in order.
   */
  function Notices(s: State, sock: SocketId, ks: seq<RoomId>): seq<Event>
    requires Inv(s)
  {
    if ks == [] then []
    else
      var k := ks[|ks| - 1];
      Notices(s, sock, ks[..|ks| - 1]) +
        if s.rooms.Has(k) && s.rooms.Get(k).Has(sock) && s.rooms.Get(k).Size() > 1
        then [RoomUpdate(k, s.rooms.Get(k).Delete(sock).Values())]
        else []
  }

  /** `t` has no room that `s` lacks. */
  ghost predicate NoNewRooms(s: State, t: State) {
    forall k | t.rooms.Has(k) :: s.rooms.Has(k)
  }

  /** Every room of `s` not yet visited in `done`, or without the socket, is still there unchanged in `t`. */
  ghost predicate Untouched(s: State, t: State, sock: SocketId, done: seq<RoomId>)
    requires Inv(s) && Inv(t)
  {
    forall k | s.rooms.Has(k) && (k !in done || !s.rooms.Get(k).Has(sock)) ::
      t.rooms.Has(k) && t.rooms.Get(k) == s.rooms.Get(k)
  }

  /** Every visited room of `s` with the socket has lost it in `t`, and is gone once emptied. */
  ghost predicate Left(s: State, t: State, sock: SocketId, done: seq<RoomId>)
    requires Inv(s) && Inv(t)
  {
    forall k | s.rooms.Has(k) && k in done && s.rooms.Get(k).Has(sock) ::
      && (t.rooms.Has(k) <==> s.rooms.Get(k).Size() > 1)
      && (t.rooms.Has(k) ==> t.rooms.Get(k) == s.rooms.Get(k).Delete(sock))
  }

  /** `t` is `s` after the disconnect loop has visited the room ids in `done`. */
  ghost predicate LeftAll(s: State, t: State, sock: SocketId, done: seq<RoomId>)
    requires Inv(s)
  {
    && Inv(t)
    && NoNewRooms(s, t)
    && Untouched(s, t, sock, done)
    && Left(s, t, sock, done)
    && t.log == s.log + Notices(s, sock, done)
  }

  /** `LeaveRoom` on `k` touches no other room. */
  lemma LeaveRoomElsewhere(t: State, sock: SocketId, k: RoomId)
    requires Inv(t)
    ensures var u := LeaveRoom(t, sock, k);
      && (forall k' | u.rooms.Has(k') :: t.rooms.Has(k'))
      && (forall k' | k' != k && t.rooms.Has(k') :: u.rooms.Has(k') && u.rooms.Get(k') == t.rooms.Get(k'))
  {
  }

  lemma StepUntouched(s: State, t: State, sock: SocketId, done: seq<RoomId>, k: RoomId)
    requires Inv(s) && Inv(t) && Untouched(s, t, sock, done) && k !in done && s.rooms.Has(k)
    ensures Untouched(s, LeaveRoom(t, sock, k), sock, done + [k])
  {
    LeaveRoomElsewhere(t, sock, k);
  }

  lemma StepLeft(s: State, t: State, sock: SocketId, done: seq<RoomId>, k: RoomId)
    requires Inv(s) && Inv(t) && Untouched(s, t, sock, done) && Left(s, t, sock, done)
    requires k !in done && s.rooms.Has(k)
    ensures Left(s, LeaveRoom(t, sock, k), sock, done + [k])
  {
    LeaveRoomElsewhere(t, sock, k);
    assert t.rooms.Has(k) && t.rooms.Get(k) == s.rooms.Get(k);
  }

  lemma StepNotices(s: State, sock: SocketId, done: seq<RoomId>, k: RoomId)
    requires Inv(s)
    ensures Notices(s, sock, done + [k]) == Notices(s, sock, done) +
      if s.rooms.Has(k) && s.rooms.Get(k).Has(sock) && s.rooms.Get(k).Size() > 1
      then [RoomUpdate(k, s.rooms.Get(k).Delete(sock).Values())]
      else []
  {
    assert (done + [k])[..|done|] == done;
  }

  lemma StepLog(s: State, t: State, sock: SocketId, done: seq<RoomId>, k: RoomId)
    requires Inv(s) && Inv(t) && t.log == s.log + Notices(s, sock, done)
    requires s.rooms.Has(k) && t.rooms.Has(k) && t.rooms.Get(k) == s.rooms.Get(k)
    ensures LeaveRoom(t, sock, k).log == s.log + Notices(s, sock, done + [k])
  {
    StepNotices(s, sock, done, k);
  }

  /** Visiting one more room keeps `LeftAll`. */
  lemma LeaveStep(s: State, t: State, sock: SocketId, done: seq<RoomId>, k: RoomId)
    requires Inv(s) && LeftAll(s, t, sock, done) && k !in done && s.rooms.Has(k)
    ensures LeftAll(s, LeaveRoom(t, sock, k), sock, done + [k])
  {
    LeaveRoomElsewhere(t, sock, k);
    StepUntouched(s, t, sock, done, k);
    StepLeft(s, t, sock, done, k);
    assert t.rooms.Has(k) && t.rooms.Get(k) == s.rooms.Get(k);
    StepLog(s, t, sock, done, k);
  }

  lemma {:induction false} LeaveRoomsProgress(s: State, sock: SocketId, n: nat)
    requires Inv(s) && n <= |s.rooms.keys|
    ensures LeftAll(s, LeaveRooms(s, sock, s.rooms.keys[..n]), sock, s.rooms.keys[..n])
  {
    var ks := s.rooms.keys;
    if n > 0 {
      LeaveRoomsProgress(s, sock, n - 1);
      var done, k := ks[..n - 1], ks[n - 1];
      assert ks[..n] == done + [k];
      assert k !in done by {
        forall i | 0 <= i < |done| ensures done[i] != k { assert done[i] == ks[i]; }
      }
      assert (done + [k])[..|done|] == done;
      LeaveStep(s, LeaveRooms(s, sock, done), sock, done, k);
    } else {
      assert ks[..n] == [];
    }
  }

  /**
    The room the loop visits next is still as it was at the start, and visiting
    it is one more `LeaveRoom`.
   */
  lemma NextRoom(s: State, sock: SocketId, i: nat)
    requires Inv(s) && i < |s.rooms.keys|
    ensures var ks := s.rooms.keys; var t := LeaveRooms(s, sock, ks[..i]);
      && t.rooms.Has(ks[i]) && t.rooms.Get(ks[i]) == s.rooms.Get(ks[i])
      && LeaveRooms(s, sock, ks[..i + 1]) == LeaveRoom(t, sock, ks[i])
  {
    var ks := s.rooms.keys;
    LeaveRoomsProgress(s, sock, i);
    assert ks[i] !in ks[..i] by {
      forall j | 0 <= j < i ensures ks[..i][j] != ks[i] { }
    }
    assert ks[..i + 1][..i] == ks[..i];
  }

  function Disconnect(s: State, sock: SocketId): (r: State)
    requires Inv(s)
    ensures Inv(r)
    ensures forall k | r.rooms.Has(k) :: s.rooms.Has(k) && !r.rooms.Get(k).Has(sock)
    ensures forall k | s.rooms.Has(k) && !s.rooms.Get(k).Has(sock) ::
      r.rooms.Has(k) && r.rooms.Get(k) == s.rooms.Get(k)
    ensures forall k | s.rooms.Has(k) && s.rooms.Get(k).Has(sock) ::
      && (r.rooms.Has(k) <==> s.rooms.Get(k).Size() > 1)
      && (r.rooms.Has(k) ==> r.rooms.Get(k) == s.rooms.Get(k).Delete(sock))
    ensures r.log == s.log + Notices(s, sock, s.rooms.keys)
  {
    LeaveRoomsProgress(s, sock, |s.rooms.keys|);
    assert s.rooms.keys[..|s.rooms.keys|] == s.rooms.keys;
    LeaveRooms(s, sock, s.rooms.keys)
  }

  // ------------------------------------------------------- multi-step lemmas

  /** A socket that sits in no room: `disconnecting` changes nothing and emits nothing. */
  lemma {:induction false} LeaveRoomsAbsent(s: State, sock: SocketId, ks: seq<RoomId>)
    requires Inv(s)
    requires forall k | s.rooms.Has(k) :: !s.rooms.Get(k).Has(sock)
    ensures LeaveRooms(s, sock, ks) == s
  {
    if ks != [] {
      LeaveRoomsAbsent(s, sock, ks[..|ks| - 1]);
    }
  }

  lemma DisconnectAbsent(s: State, sock: SocketId)
    requires Inv(s)
    requires forall k | s.rooms.Has(k) :: !s.rooms.Get(k).Has(sock)
    ensures Disconnect(s, sock) == s
  {
    LeaveRoomsAbsent(s, sock, s.rooms.keys);
  }

  /** A second `disconnecting` for the same socket is a no-op. */
  lemma DisconnectIdempotent(s: State, sock: SocketId)
    requires Inv(s)
    ensures Disconnect(Disconnect(s, sock), sock) == Disconnect(s, sock)
  {
    DisconnectAbsent(Disconnect(s, sock), sock);
  }

  /** A room without voters is vacuously all-voted: reveal emits `votes-revealed`. */
  lemma RevealWithoutVoters(s: State, roomId: RoomId)
    requires Inv(s) && s.rooms.Has(roomId)
    requires forall id | id in s.rooms.Get(roomId).entries :: s.rooms.Get(roomId).entries[id].isSpectator
    ensures RevealVotes(s, roomId) == State(s.rooms, s.log + [VotesRevealed(roomId)])
  {
  }

  /** Votes by two different sockets in a row both land in the room. */
  lemma NoLostVote(s: State, roomId: RoomId, a: SocketId, va: Option<string>, b: SocketId, vb: Option<string>)
    requires Inv(s) && a != b && MayVote(s, a, roomId) && MayVote(s, b, roomId)
    ensures var t := CastVote(CastVote(s, a, roomId, va), b, roomId, vb);
      && t.rooms.Get(roomId).Get(a).vote == va
      && t.rooms.Get(roomId).Get(b).vote == vb
  {
    var s1 := CastVote(s, a, roomId, va);
    assert MayVote(s1, b, roomId);
  }

  /** The last participant leaving deletes the room; the next join starts a new one with only the joiner. */
  lemma LastLeaveForgetsRoom(s: State, roomId: RoomId, sock: SocketId, next: SocketId, userName: string, isSpectator: bool)
    requires Inv(s) && s.rooms.Has(roomId) && s.rooms.Get(roomId).keys == [sock]
    ensures !Disconnect(s, sock).rooms.Has(roomId)
    ensures var t := Join(Disconnect(s, sock), next, roomId, userName, isSpectator);
      t.rooms.Get(roomId).Values() == [Participant(userName, None, isSpectator)]
  {
    assert s.rooms.Get(roomId).Has(sock);
  }

  /** One `join-room` request: socket id, user name and role. */
  datatype JoinRequest = JoinRequest(sock: SocketId, userName: string, isSpectator: bool)

  /** The requests in `js` joining `roomId` one after the other. */
  function JoinAll(s: State, roomId: RoomId, js: seq<JoinRequest>): (r: State)
    requires Inv(s)
    ensures Inv(r)
  {
    if js == [] then s
    else
      var j := js[|js| - 1];
      Join(JoinAll(s, roomId, js[..|js| - 1]), j.sock, roomId, j.userName, j.isSpectator)
  }

  /** The socket ids of `js`, in order. */
  function Socks(js: seq<JoinRequest>): (ids: seq<SocketId>)
    ensures |ids| == |js| && forall i :: 0 <= i < |js| ==> ids[i] == js[i].sock
  {
    if js == [] then [] else Socks(js[..|js| - 1]) + [js[|js| - 1].sock]
  }

  /** A join of a socket new to the room appends it to the room's snapshot. */
  lemma JoinAppends(s: State, roomId: RoomId, j: JoinRequest)
    requires Inv(s) && !RoomOf(s, roomId).Has(j.sock)
    ensures var before, after := RoomOf(s, roomId), Join(s, j.sock, roomId, j.userName, j.isSpectator).rooms.Get(roomId);
      && after.keys == before.keys + [j.sock]
      && after.Values() == before.Values() + [Participant(j.userName, None, j.isSpectator)]
  {
    var before, after := RoomOf(s, roomId), Join(s, j.sock, roomId, j.userName, j.isSpectator).rooms.Get(roomId);
    assert after == before.Set(j.sock, Participant(j.userName, None, j.isSpectator));
    assert forall i | 0 <= i < |before.keys| :: before.keys[i] != j.sock;
  }

  /** The participants `js` create, in order, each without a vote. */
  function Newcomers(js: seq<JoinRequest>): (ps: seq<Participant>)
    ensures |ps| == |js|
    ensures forall i :: 0 <= i < |js| ==> ps[i] == Participant(js[i].userName, None, js[i].isSpectator)
  {
    if js == [] then []
    else
      var j := js[|js| - 1];
      Newcomers(js[..|js| - 1]) + [Participant(j.userName, None, j.isSpectator)]
  }

  /**
    N joins of distinct sockets to a room that does not exist yet leave a room
    of exactly N participants, in join order, none of them with a vote.
   */
  lemma {:induction false} JoinAllFresh(s: State, roomId: RoomId, js: seq<JoinRequest>)
    requires Inv(s) && !s.rooms.Has(roomId)
    requires Distinct(Socks(js))
    ensures var room := RoomOf(JoinAll(s, roomId, js), roomId);
      room.keys == Socks(js) && room.Values() == Newcomers(js)
  {
    if js != [] {
      var init, j := js[..|js| - 1], js[|js| - 1];
      assert Socks(js) == Socks(init) + [j.sock];
      DistinctSnoc(Socks(init), j.sock);
      JoinAllFresh(s, roomId, init);
      JoinAppends(JoinAll(s, roomId, init), roomId, j);
    }
  }
}
