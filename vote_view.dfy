/**
  The client's view of a room, as the `useVotes` hook keeps it: the last
  participant list the server sent, whether the votes are shown, and the card
  this user has picked. Three server events overwrite these cells.
 */
module VoteView {
  import opened Wrappers
  import opened Participants
  import opened Rooms

  datatype View = View(votes: seq<Participant>, showVotes: bool, selectedCard: Option<string>)

  /** The three `useState` initial values. */
  function Initial(): View {
    View([], false, None)
  }

  /** `i` is the first position of `votes` whose `userName` is `name`. */
  predicate FirstMatch(votes: seq<Participant>, name: string, i: int) {
    && 0 <= i < |votes|
    && votes[i].userName == name
    && forall j | 0 <= j < i :: votes[j].userName != name
  }

  /** `votes.find(v => v.userName === name)`: the first entry with that name, if any. */
  function FindByName(votes: seq<Participant>, name: string): (r: Option<Participant>)
    ensures r.None? ==> forall i | 0 <= i < |votes| :: votes[i].userName != name
    ensures r.Some? ==> exists i :: FirstMatch(votes, name, i) && votes[i] == r.value
  {
    if votes == [] then None
    else if votes[0].userName == name then
      assert FirstMatch(votes, name, 0);
      Some(votes[0])
    else
      var r := FindByName(votes[1..], name);
      assert forall i | 0 < i < |votes| :: votes[i] == votes[1..][i - 1];
      if r.Some? then
        var i :| FirstMatch(votes[1..], name, i) && votes[1..][i] == r.value;
        assert FirstMatch(votes, name, i + 1);
        r
      else
        r
  }

  /** `room-update`: take the new list; drop the selected card once this user's vote is `null`. */
  function RoomUpdated(v: View, userName: string, updated: seq<Participant>): View {
    var userVote := FindByName(updated, userName);
    View(updated, v.showVotes, if userVote.Some? && userVote.value.vote.None? then None else v.selectedCard)
  }

  /** `votes-revealed`. */
  function Revealed(v: View): View {
    v.(showVotes := true)
  }

  /** `votes-reset`. */
  function Reset(v: View): View {
    v.(showVotes := false, selectedCard := None)
  }

  /** The `setSelectedCard` the hook hands to the page. */
  function Selected(v: View, card: Option<string>): View {
    v.(selectedCard := card)
  }

  // ------------------------------------------------------------ transitions

  /**
    `room-update` replaces the list wholesale and keeps `showVotes`; the
    selected card is cleared exactly when the first entry with this user's
    name has a `null` vote, and kept otherwise (no such entry included).
   */
  lemma RoomUpdateView(v: View, userName: string, updated: seq<Participant>)
    ensures var r := RoomUpdated(v, userName, updated);
      && r.votes == updated
      && r.showVotes == v.showVotes
      && ((exists i :: FirstMatch(updated, userName, i) && updated[i].vote.None?) ==> r.selectedCard.None?)
      && ((forall i | FirstMatch(updated, userName, i) :: updated[i].vote.Some?) ==> r.selectedCard == v.selectedCard)
  {
    var found := FindByName(updated, userName);
    if found.Some? {
      var i :| FirstMatch(updated, userName, i) && updated[i] == found.value;
      forall j | FirstMatch(updated, userName, j) ensures j == i { }
    }
  }

  /** `votes-revealed` shows the votes and changes nothing else; a second one changes nothing. */
  lemma RevealOnlyShows(v: View)
    ensures Revealed(v) == View(v.votes, true, v.selectedCard)
    ensures Revealed(Revealed(v)) == Revealed(v)
  {
  }

  /** `votes-reset` hides the votes and drops the card, keeps the list; a second one changes nothing. */
  lemma ResetKeepsVotes(v: View)
    ensures Reset(v) == View(v.votes, false, None)
    ensures Reset(Reset(v)) == Reset(v)
    ensures Reset(v) == Initial().(votes := v.votes)
  {
  }

  // ------------------------------------------------- the view of a server

  /** What this client makes of one event the server emits to its room. */
  function Receive(v: View, userName: string, e: Event): View {
    match e
    case RoomUpdate(_, snapshot) => RoomUpdated(v, userName, snapshot)
    case VotesRevealed(_) => Revealed(v)
    case VotesReset(_) => Reset(v)
  }

  function ReceiveAll(v: View, userName: string, es: seq<Event>): View
    decreases |es|
  {
    if es == [] then v else ReceiveAll(Receive(v, userName, es[0]), userName, es[1..])
  }

  /** What `reset-votes` on a stored room emits: the cleared snapshot, then `votes-reset`. */
  lemma ResetEmits(s: State, roomId: RoomId)
    requires Inv(s) && s.rooms.Has(roomId)
    ensures var r := ResetVotes(s, roomId); var snap := r.rooms.Get(roomId).Values();
      && r.log[|s.log|..] == [RoomUpdate(roomId, snap), VotesReset(roomId)]
      && |snap| == s.rooms.Get(roomId).Size()
      && forall i | 0 <= i < |snap| :: !snap[i].isSpectator ==> snap[i].vote.None?
  {
    var r := ResetVotes(s, roomId);
    var before, after := s.rooms.Get(roomId), r.rooms.Get(roomId);
    var snap := after.Values();
    forall i | 0 <= i < |snap| ensures !snap[i].isSpectator ==> snap[i].vote.None? {
      var id := after.keys[i];
      assert id in before.entries;
    }
  }

  lemma ReceiveTwo(v: View, userName: string, e: Event, e': Event)
    ensures ReceiveAll(v, userName, [e, e']) == Receive(Receive(v, userName, e), userName, e')
  {
    assert [e, e'][1..] == [e'] && [e'][1..] == [];
    var w := Receive(v, userName, e);
    assert ReceiveAll(w, userName, [e']) == ReceiveAll(Receive(w, userName, e'), userName, []);
  }

  /**
    After `reset-votes`, a member of the room that receives what the handler
    emits shows the room's participants in join order, every voter without a
    vote, the votes hidden and no card selected, whatever it showed before.
   */
  lemma ClientAfterReset(s: State, roomId: RoomId, v: View, userName: string)
    requires Inv(s) && s.rooms.Has(roomId)
    ensures var r := ResetVotes(s, roomId);
      var w := ReceiveAll(v, userName, r.log[|s.log|..]);
      && w.votes == r.rooms.Get(roomId).Values()
      && |w.votes| == s.rooms.Get(roomId).Size()
      && (forall i | 0 <= i < |w.votes| :: !w.votes[i].isSpectator ==> w.votes[i].vote.None?)
      && !w.showVotes
      && w.selectedCard.None?
  {
    var r := ResetVotes(s, roomId);
    ResetEmits(s, roomId);
    ReceiveTwo(v, userName, RoomUpdate(roomId, r.rooms.Get(roomId).Values()), VotesReset(roomId));
  }

  // ---------------------------------------------------------------- the hook

  /** One mounted `useVotes(socket, userName)`: its three state cells. */
  class VotesHook {
    const userName: string
    var votes: seq<Participant>
    var showVotes: bool
    var selectedCard: Option<string>

    function Current(): View
      reads this
    {
      View(votes, showVotes, selectedCard)
    }

    constructor (userName: string)
      ensures this.userName == userName && Current() == Initial()
    {
      this.userName := userName;
      votes := [];
      showVotes := false;
      selectedCard := None;
    }

    /** `socket.on("room-update", ...)`. */
    method OnRoomUpdate(updatedVotes: seq<Participant>)
      modifies this
      ensures Current() == RoomUpdated(old(Current()), userName, updatedVotes)
    {
      votes := updatedVotes;
      var userVote := FindByName(updatedVotes, userName);
      if userVote.Some? && userVote.value.vote.None? {
        selectedCard := None;
      }
    }

    /** `socket.on("votes-revealed", ...)`. */
    method OnVotesRevealed()
      modifies this
      ensures Current() == Revealed(old(Current()))
    {
      showVotes := true;
    }

    /** `socket.on("votes-reset", ...)`. */
    method OnVotesReset()
      modifies this
      ensures Current() == Reset(old(Current()))
    {
      showVotes := false;
      selectedCard := None;
    }

    /** `setSelectedCard`, called by the page when the user picks a card. */
    method SetSelectedCard(card: Option<string>)
      modifies this
      ensures Current() == Selected(old(Current()), card)
    {
      selectedCard := card;
    }
  }
}
