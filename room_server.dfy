/**
  The socket server as it runs: one object holding the global `rooms` map,
  with one method per socket event handler. Each method updates the map in
  place the way the handler does and appends what it emits to `log`; its
  contract ties the new state to the handler's meaning in module `Rooms`.
 */
module RoomServer {
  import opened Wrappers
  import opened OrderedMaps
  import opened Participants
  import opened Rooms

  class Server {
    var rooms: OMap<RoomId, Room>
    var log: seq<Event>

    function Current(): State
      reads this
    {
      State(rooms, log)
    }

    ghost predicate Valid()
      reads this
    {
      Inv(Current())
    }

    /** `const rooms = new Map()`. */
    constructor ()
      ensures Valid() && Current() == Init()
    {
      rooms := Empty();
      log := [];
    }

    /** `socket.on("join-room", ...)`. */
    method OnJoinRoom(sock: SocketId, roomId: RoomId, userName: string, isSpectator: bool)
      requires Valid()
      modifies this
      ensures Valid()
      ensures Current() == Join(old(Current()), sock, roomId, userName, isSpectator)
    {
      ghost var rooms0 := rooms;
      if !rooms.Has(roomId) {
        rooms := rooms.Set(roomId, Empty());
      }
      var room := rooms.Get(roomId).Set(sock, Participant(userName, None, isSpectator));
      rooms := rooms.Set(roomId, room);
      if !rooms0.Has(roomId) {
        SetTwice(rooms0, roomId, Empty(), room);
      }
      log := log + [RoomUpdate(roomId, room.Values())];
    }

    /** `socket.on("vote", ...)`. */
    method OnVote(sock: SocketId, roomId: RoomId, vote: Option<string>)
      requires Valid()
      modifies this
      ensures Valid()
      ensures Current() == CastVote(old(Current()), sock, roomId, vote)
    {
      if rooms.Has(roomId) {
        var room := rooms.Get(roomId);
        if room.Has(sock) && !room.Get(sock).isSpectator {
          room := room.Set(sock, room.Get(sock).(vote := vote));
          rooms := rooms.Set(roomId, room);
          log := log + [RoomUpdate(roomId, room.Values())];
        }
      }
    }

    /** `socket.on("reveal-votes", ...)`: a guard and an emission, no state of its own. */
    method OnRevealVotes(roomId: RoomId)
      requires Valid()
      modifies this
      ensures Valid()
      ensures Current() == RevealVotes(old(Current()), roomId)
    {
      if rooms.Has(roomId) {
        var allVoted := AllVoted(rooms.Get(roomId).Values());
        if allVoted {
          log := log + [VotesRevealed(roomId)];
        }
      }
    }

    /** `socket.on("reset-votes", ...)`: clears every voter's vote in place, then emits twice. */
    method OnResetVotes(roomId: RoomId)
      requires Valid()
      modifies this
      ensures Valid()
      ensures Current() == ResetVotes(old(Current()), roomId)
    {
      if rooms.Has(roomId) {
        var room := ClearVotes(rooms.Get(roomId));
        rooms := rooms.Set(roomId, room);
        log := log + [RoomUpdate(roomId, room.Values()), VotesReset(roomId)];
      }
    }

    /**
      `socket.on("disconnecting", ...)`: walks every room in `rooms` order.
      The walk only ever deletes the entry it stands on, so it visits exactly
      the room ids present when it started.
     */
    method OnDisconnecting(sock: SocketId)
      requires Valid()
      modifies this
      ensures Valid()
      ensures Current() == Disconnect(old(Current()), sock)
    {
      ghost var s0 := Current();
      var ks := rooms.keys;
      var i := 0;
      while i < |ks|
        invariant 0 <= i <= |ks| && ks == s0.rooms.keys
        invariant Current() == LeaveRooms(s0, sock, ks[..i])
      {
        var roomId := ks[i];
        NextRoom(s0, sock, i);
        var room := rooms.Get(roomId);
        if room.Has(sock) {
          room := room.Delete(sock);
          if room.Size() == 0 {
            rooms := rooms.Delete(roomId);
          } else {
            rooms := rooms.Set(roomId, room);
            log := log + [RoomUpdate(roomId, room.Values())];
          }
        }
        i := i + 1;
      }
      assert ks[..i] == ks;
    }
  }

  /**
    The `for (const user of room.values())` loop of `reset-votes`: visits the participants in join
    order and overwrites each voter with a copy whose vote is `null`.
   */
  method ClearVotes(room: Room) returns (cleared: Room)
    requires room.Valid()
    ensures cleared == ResetRoom(room)
  {
    cleared := room;
    var i := 0;
    while i < |cleared.keys|
      invariant 0 <= i <= |room.keys|
      invariant cleared.Valid() && cleared.keys == room.keys
      invariant forall j | 0 <= j < |room.keys| ::
        cleared.Get(room.keys[j]) == if j < i then Cleared(room.Get(room.keys[j])) else room.Get(room.keys[j])
    {
      var id := cleared.keys[i];
      var user := cleared.Get(id);
      if !user.isSpectator {
        cleared := cleared.Set(id, user.(vote := None));
      }
      i := i + 1;
    }
    ResetRoomByKeys(room, cleared);
  }
}
