# ScrumPoker rooms, votes and summaries in Dafny

A model of the logic of a planning-poker application, with proofs about it:

- the Socket.IO room server: one global `rooms` map from room id to a room,
  each room a map from socket id to `{ userName, vote, isSpectator }`, and the
  five event handlers `join-room`, `vote`, `reveal-votes`, `reset-votes` and
  `disconnecting` (two copies of the server exist, `socket-server/server.js`
  and the earlier `server.js`; apart from logging and `try`/`catch` they do
  the same, and one model covers both);
- `calculateVoteSummary`, which turns a room's participant list into a
  distribution (value, count, percentage; numbers ascending, `"?"` last) and
  an average;
- the `useVotes` hook, the client's three state cells and how the server's
  `room-update`, `votes-revealed` and `votes-reset` events overwrite them.

Files and modules:

- `wrappers.dfy` (`Wrappers`): `Option`, which stands for a JavaScript value or `null`.
- `ordered_maps.dfy` (`OrderedMaps`): a JavaScript `Map` as a key sequence in
  insertion order plus a map. `set` on a present key keeps its position,
  `set` on a new key appends it, and `delete` removes it.
- `participants.dfy` (`Participants`): the participant record.
- `rooms.dfy` (`Rooms`): each handler as a function from the server state
  before it to the state after it. The state is `rooms` plus the log of every
  emitted event, and the lemmas relate several handlers.
- `room_server.dfy` (`RoomServer`): class `Server` holds `rooms` and the log.
  It has one method per handler; each updates the map the way the handler
  does, and its contract equates the new state with the `Rooms` function.
- `vote_summary.dfy` (`VoteSummary`): the counting loop as a method, proved
  equal to the functions it builds. Below it are the tally, the percentages,
  the comparator sort and the average.
- `summary_laws.dfy` (`SummaryLaws`): what the summary promises. Spectators
  are ignored. Every counted value appears once with its exact count and
  percentage, in card order. The counts add up. The average ignores `"?"`.
- `vote_view.dfy` (`VoteView`): the hook as class `VotesHook`, with one method
  per event and a pure function behind each. It also proves what a client
  shows after receiving the events a server reset emits.

Every room kept in `rooms` is well formed and non-empty, and no spectator in
it holds a vote (`Rooms.Inv`). Every handler keeps this invariant.

A vote is a decimal numeral or `"?"`, and the model reads a numeral as the
exact integer it spells, which is what JavaScript's `Number` gives up to 2^53.
A percentage is `Math.round(100 * count / totalVotes)`, computed as the nearest integer with
halves rounded up. The average is kept in tenths, so an average of 6.5 is
`Some(65)`.

## Model

| member | source | states |
|---|---|---|
| OrderedMaps.Without | socket-server/server.js:117-121 | the key order after `delete`: exactly the other keys remain; an absent key leaves the list as it was; in a list of distinct keys, removing the key at position i leaves the keys before i followed by those after it, so the survivors keep their order; distinct keys stay distinct, one fewer when the key was present |
| OrderedMaps.OMap.Set | socket-server/server.js:44-49 | after `map.set(k, v)`: the map is well formed and `k` maps to `v`; every other key is unchanged; a present key keeps its position and a new key is appended |
| OrderedMaps.OMap.Delete | socket-server/server.js:117-121 | after `map.delete(k)`: `k` is gone, every other key is unchanged, the order is the old order without `k`, and the size drops by one exactly when `k` was present |
| OrderedMaps.OMap.Values | socket-server/server.js:51 | `Array.from(map.values())` lists the entries in key order, one per key |
| OrderedMaps.SetTwice | socket-server/server.js:44-49 | two `set`s of the same key equal the second one alone: creating an empty room and then storing the joined room is one `set` |
| OrderedMaps.Empty | socket-server/server.js:20 | `new Map()` has no key and size 0 |
| Rooms.Init | socket-server/server.js:20 | the server starts with no rooms and satisfies the room invariant |
| Rooms.RoomOf | socket-server/server.js:44-48 | the room `join-room` writes into (the stored one, or a new empty `Map`) is well formed |
| Rooms.Join | server.js:19-26 | after `join-room`: the room exists and holds the socket as `{userName, vote: null, isSpectator}`; its other members are unchanged; a re-join keeps the key order and a first join appends the socket; other rooms are unchanged; one `room-update` with the full snapshot is emitted; the invariant (no empty room, no spectator vote) is kept |
| Rooms.MayVote | socket-server/server.js:61-64 | definition: the `vote` guard, true when the room exists, the socket is in it and it is not a spectator |
| Rooms.CastVote | server.js:30-36 | `vote` is a no-op, with nothing emitted, for an unknown room, a non-member or a spectator; otherwise only the caller's `vote` field in that room changes, membership and key orders are unchanged, and one `room-update` is emitted |
| Rooms.AllVoted | socket-server/server.js:80-81 | definition: `participants.every(user => user.vote !== null)` over the non-spectators of a snapshot |
| Rooms.RevealVotes | server.js:41-47 | `reveal-votes` never changes `rooms`, and it emits exactly one `votes-revealed` iff the room exists and every non-spectator has a non-null vote |
| Rooms.RevealWithoutVoters | socket-server/server.js:78-85 | a room with only spectators counts as all-voted, so reveal emits |
| Rooms.Cleared | socket-server/server.js:98-100 | definition: the reset loop body on one participant, a voter gets a `null` vote and a spectator is left as is |
| Rooms.ResetRoom | socket-server/server.js:97-101 | the reset loop's effect on a room: same keys in the same order, every participant cleared |
| Rooms.ResetRoomByKeys | socket-server/server.js:97-101 | a room with the same keys whose every entry is the cleared one is `ResetRoom` |
| Rooms.ResetVotes | server.js:52-61 | `reset-votes` on an unknown room changes nothing; otherwise it sets every non-spectator's vote to `null`, with membership, order and other rooms unchanged, and emits `room-update` followed by `votes-reset` |
| Rooms.LeaveRoom | socket-server/server.js:116-126 | one pass of the `disconnecting` loop keeps the invariant |
| Rooms.LeaveRooms | socket-server/server.js:115-128 | the loop over a sequence of room ids keeps the invariant |
| Rooms.LeaveRoomElsewhere | socket-server/server.js:116-126 | one pass adds no room and leaves every other room unchanged |
| Rooms.StepNotices | socket-server/server.js:123 | one more visited room adds its `room-update` to the owed emissions exactly when it kept other members |
| Rooms.LeaveStep | socket-server/server.js:115-128 | visiting one more room keeps the disconnect-progress relation between the state at the start and the current one |
| Rooms.LeaveRoomsProgress | socket-server/server.js:115-128 | after the first n rooms, every visited room with the socket has lost it and is gone once empty, every other room is unchanged, nothing new appears, and the log holds the owed `room-update`s in room order |
| Rooms.NextRoom | socket-server/server.js:115-116 | deleting only the current entry does not disturb the walk: the next room is still as it was at the start |
| Rooms.Notices | socket-server/server.js:116-126 | definition: the `room-update`s `disconnecting` owes, read off the state before it, one per room holding the socket and someone else, in `rooms` order, with the room minus the socket as snapshot |
| Rooms.Disconnect | server.js:65-74 | after `disconnecting`: no room holds the socket; rooms without it are unchanged; a room that held it is deleted iff the socket was its only member and otherwise is the old room without the socket; one `room-update` per surviving affected room, in `rooms` order, nothing for deleted ones; no room is added |
| Rooms.LeaveRoomsAbsent | socket-server/server.js:115-128 | the loop for a socket in no room changes nothing |
| Rooms.DisconnectAbsent | socket-server/server.js:115-128 | `disconnecting` of a socket in no room changes nothing and emits nothing |
| Rooms.DisconnectIdempotent | socket-server/server.js:115-128 | a second `disconnecting` of the same socket is a no-op |
| Rooms.NoLostVote | socket-server/server.js:61-66 | two votes by different sockets in a row both land |
| Rooms.LastLeaveForgetsRoom | socket-server/server.js:44-49 | the last member leaving deletes the room; the next join starts a room holding only the joiner |
| Rooms.JoinAll | socket-server/server.js:44-51 | any sequence of joins keeps the invariant |
| Rooms.Socks | socket-server/server.js:49 | the socket ids of a sequence of joins, in order |
| Rooms.JoinAppends | socket-server/server.js:49-51 | a socket new to the room is appended to the snapshot |
| Rooms.Newcomers | socket-server/server.js:49 | the participants a sequence of joins creates, each with a `null` vote |
| Rooms.JoinAllFresh | socket-server/server.js:44-51 | N joins of distinct sockets into a new room leave exactly those N participants, in join order, all with `null` votes |
| RoomServer.Server.constructor | socket-server/server.js:20 | the server starts as `Rooms.Init` |
| RoomServer.Server.OnJoinRoom | socket-server/server.js:44-51 | the in-place handler yields exactly `Rooms.Join` and keeps the invariant |
| RoomServer.Server.OnVote | socket-server/server.js:61-69 | the in-place handler yields exactly `Rooms.CastVote` and keeps the invariant |
| RoomServer.Server.OnRevealVotes | socket-server/server.js:78-85 | the handler yields exactly `Rooms.RevealVotes` |
| RoomServer.Server.OnResetVotes | socket-server/server.js:95-103 | the in-place handler yields exactly `Rooms.ResetVotes` and keeps the invariant |
| RoomServer.ClearVotes | socket-server/server.js:97-101 | the `for` loop over `room.values()` yields exactly `ResetRoom` of the room |
| RoomServer.Server.OnDisconnecting | socket-server/server.js:115-128 | the loop that deletes while it iterates yields exactly `Rooms.Disconnect` and keeps the invariant |
| VoteSummary.Ballot | src/util/calculateVoteSummary.ts:16-18 | definition: what one entry contributes, a voter's vote unless it is `null` or `""` |
| VoteSummary.Counted | src/util/calculateVoteSummary.ts:15-19 | the counted votes, at most one per entry |
| VoteSummary.CountedStep | src/util/calculateVoteSummary.ts:17-19 | one more entry adds its vote when it is a voter's non-empty vote |
| VoteSummary.TotalVotes | src/util/calculateVoteSummary.ts:26-28 | definition: `totalVotes`, the number of non-spectators whose vote is not `null` |
| VoteSummary.TotalCovers | src/util/calculateVoteSummary.ts:15-28 | `totalVotes` is at least the number of counted votes, and equal to it when no voter voted the empty string |
| VoteSummary.TallyOf | src/util/calculateVoteSummary.ts:12-19 | `voteCount` is a well-formed `Map`, empty exactly when nothing was counted |
| VoteSummary.Bump | src/util/calculateVoteSummary.ts:19 | one `voteCount.set(...)` keeps the `Map` well formed |
| VoteSummary.TallyStep | src/util/calculateVoteSummary.ts:19 | counting one more vote is one `Bump` |
| VoteSummary.TallyCounts | src/util/calculateVoteSummary.ts:12-19 | `voteCount` has a key exactly for each counted value, mapped to its number of occurrences |
| VoteSummary.NumericOf | src/util/calculateVoteSummary.ts:20-22 | `numericVotes` holds one number per counted vote other than `"?"` |
| VoteSummary.NumericStep | src/util/calculateVoteSummary.ts:20-22 | one more vote adds its number unless it is `"?"` |
| VoteSummary.Tally | src/util/calculateVoteSummary.ts:12-24 | the `filter`/`forEach` loop builds exactly `TallyOf` and `NumericOf` of the counted votes |
| VoteSummary.RoundHalfUp | src/util/calculateVoteSummary.ts:33 | `Math.round(n / d)`: the integer within one half of `n / d`, a half rounded up |
| VoteSummary.EntriesOf | src/util/calculateVoteSummary.ts:29-34 | one line per `voteCount` entry in key order, with its value, its count and `Math.round(100 * count / totalVotes)` |
| VoteSummary.Number | src/util/calculateVoteSummary.ts:21 | definition: `Number(v)` of a decimal numeral, read as the exact integer it spells |
| VoteSummary.Compare | src/util/calculateVoteSummary.ts:35-39 | the comparator puts a line first (result <= 0) exactly when its value may precede the other's: a number, before `"?"` or a number no smaller |
| VoteSummary.Insert | src/util/calculateVoteSummary.ts:35-39 | one insertion step adds exactly the new line |
| VoteSummary.Sort | src/util/calculateVoteSummary.ts:35-39 | `sort` permutes the lines |
| VoteSummary.OrderedCons | src/util/calculateVoteSummary.ts:35-39 | a sequence is in card order iff its head may precede every later line and its tail is in card order |
| VoteSummary.InsertAbove | src/util/calculateVoteSummary.ts:35-39 | insertion keeps every line after a bound every line already followed |
| VoteSummary.InsertOrdered | src/util/calculateVoteSummary.ts:35-39 | inserting a new value into lines in card order keeps them in card order |
| VoteSummary.SortOrdered | src/util/calculateVoteSummary.ts:35-39 | lines with distinct values come out in card order: numbers ascending, `"?"` last |
| VoteSummary.Average | src/util/calculateVoteSummary.ts:41-46 | `null` exactly when there is no numeric vote; otherwise the mean in tenths rounded half up: `n(2a - 1) <= 20 sum < n(2a + 1)` |
| VoteSummary.SummaryOf | src/util/calculateVoteSummary.ts:8-49 | definition: the result `{ summary, average }`, the tally lines over `totalVotes` sorted with the comparator, and the average of the numeric votes |
| VoteSummary.CalculateVoteSummary | src/util/calculateVoteSummary.ts:8-49 | the function computes exactly `SummaryOf` |
| SummaryLaws.CountedAppend | src/util/calculateVoteSummary.ts:15-19 | counting distributes over concatenation |
| SummaryLaws.TotalAppend | src/util/calculateVoteSummary.ts:26-28 | `totalVotes` adds up over concatenation |
| SummaryLaws.CountedWithout | src/util/calculateVoteSummary.ts:15-28 | a spectator adds nothing to the counted votes or to `totalVotes` |
| SummaryLaws.SummaryParts | src/util/calculateVoteSummary.ts:26-46 | the summary is the sorted lines of the tally over `totalVotes`, and the average is that of `numericVotes` |
| SummaryLaws.SpectatorIgnored | src/util/calculateVoteSummary.ts:15-28 | inserting a spectator anywhere, whatever its vote, leaves the result unchanged |
| SummaryLaws.Lines | src/util/calculateVoteSummary.ts:29-39 | the summary is the unsorted lines, sorted |
| SummaryLaws.TallyDescribes | src/util/calculateVoteSummary.ts:12-34 | the unsorted lines list each counted value once, with its occurrences and share, and nothing else |
| SummaryLaws.LinesExact | src/util/calculateVoteSummary.ts:12-34 | the same for the lines of a participant list |
| SummaryLaws.InsertDistinct | src/util/calculateVoteSummary.ts:35-39 | inserting a new value keeps values distinct |
| SummaryLaws.SortDistinct | src/util/calculateVoteSummary.ts:35-39 | sorting keeps values distinct |
| SummaryLaws.SameMembers | src/util/calculateVoteSummary.ts:35-39 | a permutation has the same elements |
| SummaryLaws.SortDescribes | src/util/calculateVoteSummary.ts:35-39 | sorting keeps the lines describing the votes and puts them in card order |
| SummaryLaws.Distribution | src/util/calculateVoteSummary.ts:12-39 | every counted value appears exactly once; each line's count is its number of occurrences and its percentage is `Math.round(100 * count / totalVotes)`; numbers ascend and `"?"` is last |
| SummaryLaws.CountAtMost | src/util/calculateVoteSummary.ts:19 | a value occurs at most as often as there are votes |
| SummaryLaws.PercentOf | src/util/calculateVoteSummary.ts:33 | a count within the total gives a share of at most 100 |
| SummaryLaws.PercentBound | src/util/calculateVoteSummary.ts:33 | every count is at most `totalVotes` and every percentage lies in 0..100 |
| SummaryLaws.WithoutCount | src/util/calculateVoteSummary.ts:19 | removing one value's votes removes exactly its occurrences |
| SummaryLaws.CountsCover | src/util/calculateVoteSummary.ts:19-32 | distinct lines that name each counted value with its occurrences have counts summing to the number of votes |
| SummaryLaws.CountsInsert | src/util/calculateVoteSummary.ts:35-39 | insertion adds the new line's count to the total count |
| SummaryLaws.CountsSort | src/util/calculateVoteSummary.ts:35-39 | sorting keeps the total count |
| SummaryLaws.CountsAddUp | src/util/calculateVoteSummary.ts:18-28 | the counts sum to the number of counted votes, and to `totalVotes` when no voter voted the empty string |
| SummaryLaws.AllOf | src/util/calculateVoteSummary.ts:20-22 | a value occurs as often as there are votes iff every vote is that value |
| SummaryLaws.NoAverage | src/util/calculateVoteSummary.ts:20-46 | `average` is `null` iff every counted vote is `"?"` (or none was cast) |
| SummaryLaws.CountedSnoc | src/util/calculateVoteSummary.ts:17-19 | one more entry at the end adds its ballot at the end |
| SummaryLaws.CardVotesSnoc | src/util/calculateVoteSummary.ts:17-21 | one more card vote keeps every vote a card |
| SummaryLaws.QuestionKeepsAverage | src/util/calculateVoteSummary.ts:19-22 | one more `"?"` vote leaves `average` unchanged |
| VoteView.Initial | src/hooks/useVotes.tsx:11-13 | definition: the three `useState` initial values, no votes, votes hidden, no card |
| VoteView.RoomUpdated | src/hooks/useVotes.tsx:18-24 | definition: the `room-update` handler on the view, the list replaced and the card dropped when this user's first entry has a `null` vote |
| VoteView.Revealed | src/hooks/useVotes.tsx:26-28 | definition: the `votes-revealed` handler on the view, `showVotes` set |
| VoteView.Reset | src/hooks/useVotes.tsx:30-33 | definition: the `votes-reset` handler on the view, votes hidden and no card |
| VoteView.Selected | src/hooks/useVotes.tsx:13 | definition: `setSelectedCard` on the view, only the card replaced |
| VoteView.FindByName | src/hooks/useVotes.tsx:20 | `find` returns the first entry with the name, or nothing when no entry has it |
| VoteView.RoomUpdateView | src/hooks/useVotes.tsx:18-23 | `room-update` replaces `votes` wholesale and keeps `showVotes`; it clears `selectedCard` when the first entry with the user's name has a `null` vote, and otherwise, no such entry included, keeps it |
| VoteView.RevealOnlyShows | src/hooks/useVotes.tsx:26-28 | `votes-revealed` sets `showVotes` and changes nothing else; applying it twice equals applying it once |
| VoteView.ResetKeepsVotes | src/hooks/useVotes.tsx:30-33 | `votes-reset` clears `showVotes` and `selectedCard` back to their initial values and keeps `votes`; applying it twice equals applying it once |
| VoteView.ResetEmits | socket-server/server.js:95-103 | a reset emits the cleared snapshot, with the room's size and no voter vote, then `votes-reset` |
| VoteView.ReceiveTwo | src/hooks/useVotes.tsx:18-33 | receiving two events is handling one after the other |
| VoteView.ClientAfterReset | src/hooks/useVotes.tsx:18-33 | a room member that receives what `reset-votes` emits shows the room in join order with no voter vote, votes hidden and no card selected, whatever it showed before |
| VoteView.VotesHook.constructor | src/hooks/useVotes.tsx:10-13 | a new hook holds the initial state: no votes, votes hidden, no card |
| VoteView.VotesHook.OnRoomUpdate | src/hooks/useVotes.tsx:18-24 | the handler yields exactly `RoomUpdated` |
| VoteView.VotesHook.OnVotesRevealed | src/hooks/useVotes.tsx:26-28 | the handler yields exactly `Revealed` |
| VoteView.VotesHook.OnVotesReset | src/hooks/useVotes.tsx:30-33 | the handler yields exactly `Reset` |
| VoteView.VotesHook.SetSelectedCard | src/hooks/useVotes.tsx:13-42 | the exported setter changes only `selectedCard` |

## Left out

- The Socket.IO transport is not modelled: `socket.join`, delivery of `io.to(...).emit`, CORS, `listen`, and the shutdown signal handlers. An emission is an entry appended to the log; that every member of a room receives it is not modelled.
- `logRoomState`, the `console` calls, and the `try`/`catch` blocks that emit `error` are left out. The map operations modelled cannot throw.
- `socket-server/cron.js` (a keep-alive ping), `src/app/page.tsx` (UI, random room ids, `localStorage`) and `src/hooks/useSocketConnection.tsx` (connection state) are I/O and are not part of this model.
- The React plumbing of `useVotes` (`useEffect`, `socket.on`/`off`) is left out. The hook's user name is fixed when the hook is created.
- Concurrency: Node runs each handler to completion, so each handler is one atomic step.
- RoomServer.Server.OnVote: the vote payload is a string or `null`. An `undefined` or non-string payload, which the server would store as is, is not modelled.
- RoomServer.Server.OnJoinRoom, RoomServer.Server.OnVote, RoomServer.ClearVotes, RoomServer.Server.OnDisconnecting: the handlers mutate the inner room `Map` and the participant objects in place. The model computes the new room value and stores it back under the same key, which keeps the key's position. No other reference to these objects outlives a handler, so no aliasing effect is lost.
- RoomServer.Server.OnDisconnecting: the live iteration of `rooms.entries()` is modelled as a walk over the room ids present at the start. The loop only ever deletes the entry it stands on and adds none, so both visit the same rooms; `Rooms.NextRoom` proves this for the model.
- VoteSummary.Tally, VoteSummary.CalculateVoteSummary, SummaryLaws.Distribution and the other summary lemmas require every voter's vote to be `null`, empty, `"?"` or a decimal numeral, as every card the client offers is. `Number()` of any other string (`NaN`, decimals, signs, blanks) and the sort's behaviour on `NaN` are not modelled.
- VoteSummary.Number, VoteSummary.Compare, VoteSummary.Sort, VoteSummary.Average: a numeral is read as an exact integer and the sum of the numeric votes is exact. JavaScript's `Number` gives a double, so numerals above 2^53 (such as `"9007199254740993"`, read as `9007199254740992`) and sums beyond 2^53 are rounded in the source; for such votes the comparator can return 0 where the model orders them, and the average can differ. The deck's cards are all far below 2^53.
- VoteSummary.RoundHalfUp, VoteSummary.Average: rounding is exact rational rounding. The IEEE-754 doubles of `count / totalVotes * 100` and of `sum / n * 10` are not modelled, nor any case where their error moves a result across a half.
- VoteSummary.Average: the average is returned in tenths as a whole number (`Some(65)` for 6.5) instead of the double `6.5`.
- VoteSummary.Sort: `Array.prototype.sort` is modelled as a stable insertion sort with the same comparator. The lines it sorts have distinct values, so `"?"` occurs at most once. For those lines every stable sort gives this result.

