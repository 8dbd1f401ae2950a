/**
  `calculateVoteSummary`: from the participant list of a room to the
  distribution of votes (value, count, percentage; sorted by number with "?"
  last) and the average of the numeric votes.

  A vote is read as `Number(vote)`; the model asks every voter's vote to be
  `null`, empty, "?" or a decimal numeral (every card of the client's deck is
  one), so `Number` is a natural number and both roundings are stated exactly
  in integers: a percentage is `Math.round(100 * count / total)` and the
  average is kept in tenths, `Math.round(10 * sum / n)`, so an average of 6.5
  is `Some(65)`.
 */
module VoteSummary {
  import opened Wrappers
  import opened OrderedMaps
  import opened Participants

  // ------------------------------------------------------------ card values

  predicate IsDigit(c: char) {
    '0' <= c <= '9'
  }

  predicate Digits(v: string) {
    forall i | 0 <= i < |v| :: IsDigit(v[i])
  }

  /** The value of a decimal digit; the model reads nothing else as a digit. */
  function Digit(c: char): nat {
    if IsDigit(c) then c as int - '0' as int else 0
  }

  /** `Number(v)` for a string of decimal digits, the only strings the model reads as numbers. */
  function Number(v: string): nat {
    if v == [] then 0 else 10 * Number(v[..|v| - 1]) + Digit(v[|v| - 1])
  }

  /** A vote `Number` reads as a number, or "?". */
  predicate Card(v: string) {
    v == "?" || (v != "" && Digits(v))
  }

  /** Every voter's vote is `null`, empty or a card. */
  predicate CardVotes(votes: seq<Participant>) {
    forall i | 0 <= i < |votes| ::
      !votes[i].isSpectator && votes[i].vote.Some? && votes[i].vote.value != "" ==> Card(votes[i].vote.value)
  }

  // ------------------------------------------------------------- counting

  /** What the `forEach` takes from one entry: a voter's vote, unless null or empty. */
  function Ballot(p: Participant): seq<string> {
    if !p.isSpectator && p.vote.Some? && p.vote.value != "" then [p.vote.value] else []
  }

  /** The votes the `forEach` counts, in list order. */
  function Counted(votes: seq<Participant>): (vs: seq<string>)
    ensures |vs| <= |votes|
  {
    if votes == [] then []
    else
      Counted(votes[..|votes| - 1]) + Ballot(votes[|votes| - 1])
  }

  lemma CountedStep(votes: seq<Participant>, i: nat)
    requires i < |votes|
    ensures Counted(votes[..i + 1]) == Counted(votes[..i]) + Ballot(votes[i])
  {
    assert votes[..i + 1][..i] == votes[..i];
  }

  /** No voter has voted the empty string. */
  predicate NoBlankVotes(votes: seq<Participant>) {
    forall i | 0 <= i < |votes| :: !votes[i].isSpectator ==> votes[i].vote != Some("")
  }

  /** `totalVotes`: the voters whose vote is not `null`. */
  function TotalVotes(votes: seq<Participant>): nat {
    if votes == [] then 0
    else
      var p := votes[|votes| - 1];
      TotalVotes(votes[..|votes| - 1]) + if !p.isSpectator && p.vote.Some? then 1 else 0
  }

  /**
    `totalVotes` counts every counted vote, and the empty-string votes the
    `forEach` skips as well; without those it is exactly the number counted.
   */
  lemma {:induction false} TotalCovers(votes: seq<Participant>)
    ensures TotalVotes(votes) >= |Counted(votes)|
    ensures NoBlankVotes(votes) ==> TotalVotes(votes) == |Counted(votes)|
  {
    if votes != [] {
      var init := votes[..|votes| - 1];
      TotalCovers(init);
      assert NoBlankVotes(votes) ==> NoBlankVotes(init) by {
        forall i | 0 <= i < |init| ensures init[i] == votes[i] { }
      }
    }
  }

  /** `voteCount` once the votes `vs` have been counted, one `set` per vote. */
  function TallyOf(vs: seq<string>): (t: OMap<string, nat>)
    ensures t.Valid()
    ensures t.Size() == 0 <==> vs == []
  {
    if vs == [] then Empty()
    else
      Bump(TallyOf(vs[..|vs| - 1]), vs[|vs| - 1])
  }

  /** One `voteCount.set(v, (voteCount.get(v) || 0) + 1)`. */
  function Bump(t: OMap<string, nat>, v: string): (r: OMap<string, nat>)
    requires t.Valid()
    ensures r.Valid()
  {
    t.Set(v, (if t.Has(v) then t.Get(v) else 0) + 1)
  }

  lemma TallyStep(vs: seq<string>, v: string)
    ensures TallyOf(vs + [v]) == Bump(TallyOf(vs), v)
  {
    var w := vs + [v];
    assert w[..|w| - 1] == vs;
  }

  /** The tally has a key for each distinct vote, mapped to how often it was cast. */
  lemma {:induction false} TallyCounts(vs: seq<string>)
    ensures forall v :: TallyOf(vs).Has(v) <==> v in vs
    ensures forall v | v in vs :: TallyOf(vs).Get(v) == multiset(vs)[v]
  {
    if vs != [] {
      var init, last := vs[..|vs| - 1], vs[|vs| - 1];
      assert vs == init + [last];
      TallyCounts(init);
    }
  }

  /** `numericVotes` once the votes `vs` have been counted: every vote but "?", as a number. */
  function NumericOf(vs: seq<string>): (ns: seq<nat>)
    ensures |ns| == |vs| - multiset(vs)["?"]
  {
    if vs == [] then []
    else
      var init, v := vs[..|vs| - 1], vs[|vs| - 1];
      assert vs == init + [v];
      NumericOf(init) + if v != "?" then [Number(v)] else []
  }

  lemma NumericStep(vs: seq<string>, v: string)
    ensures NumericOf(vs + [v]) == NumericOf(vs) + if v != "?" then [Number(v)] else []
  {
    var w := vs + [v];
    assert w[..|w| - 1] == vs;
  }

  /**
    The `filter` and `forEach` over the voters, building `voteCount` and
    `numericVotes` step by step.
   */
  method Tally(votes: seq<Participant>) returns (voteCount: OMap<string, nat>, numericVotes: seq<nat>)
    requires CardVotes(votes)
    ensures voteCount == TallyOf(Counted(votes))
    ensures numericVotes == NumericOf(Counted(votes))
  {
    voteCount := Empty();
    numericVotes := [];
    ghost var seen: seq<string> := [];
    var i := 0;
    assert votes[..0] == [];
    while i < |votes|
      invariant 0 <= i <= |votes|
      invariant seen == Counted(votes[..i])
      invariant voteCount == TallyOf(seen)
      invariant numericVotes == NumericOf(seen)
    {
      var vote := votes[i];
      CountedStep(votes, i);
      if !vote.isSpectator && vote.vote.Some? && vote.vote.value != "" {
        var v := vote.vote.value;
        assert Ballot(vote) == [v];
        TallyStep(seen, v);
        NumericStep(seen, v);
        voteCount := Bump(voteCount, v);
        if v != "?" {
          numericVotes := numericVotes + [Number(v)];
        }
        seen := seen + [v];
      } else {
        assert seen + Ballot(vote) == seen;
      }
      i := i + 1;
    }
    assert votes[..i] == votes;
  }

  // --------------------------------------------------------- distribution

  /** One line of the distribution. */
  datatype Entry = Entry(value: string, count: nat, percentage: nat)

  /** `Math.round(n / d)` for `n / d >= 0`: the nearest integer, a half rounded up. */
  function RoundHalfUp(n: int, d: int): (r: nat)
    requires n >= 0 && d > 0
    ensures d * (2 * r - 1) <= 2 * n < d * (2 * r + 1)
  {
    var q := (2 * n + d) / (2 * d);
    assert 2 * d * q <= 2 * n + d < 2 * d * q + 2 * d;
    q
  }

  /** The `map` from `voteCount` entries to distribution lines, in key order. */
  function EntriesOf(t: OMap<string, nat>, total: nat): (es: seq<Entry>)
    requires t.Valid() && (t.Size() > 0 ==> total > 0)
    ensures |es| == t.Size()
    ensures forall i :: 0 <= i < |es| ==> es[i].value == t.keys[i] && es[i].count == t.Get(t.keys[i])
    ensures forall i :: 0 <= i < |es| ==> es[i].percentage == RoundHalfUp(100 * es[i].count, total)
  {
    seq(|t.keys|, i requires 0 <= i < |t.keys| =>
      Entry(t.keys[i], t.entries[t.keys[i]], RoundHalfUp(100 * t.entries[t.keys[i]], total)))
  }

  predicate DistinctValues(es: seq<Entry>) {
    forall i, j | 0 <= i < j < |es| :: es[i].value != es[j].value
  }

  /** Card `a` may stand before card `b`: `a` is a number, and `b` is "?" or a number no smaller. */
  predicate NotAfter(a: string, b: string) {
    a != "?" && (b == "?" || Number(a) <= Number(b))
  }

  /** "?" last, the numbers in ascending order. */
  predicate Ordered(es: seq<Entry>) {
    forall i, j | 0 <= i < j < |es| :: NotAfter(es[i].value, es[j].value)
  }

  /** The comparator handed to `sort`. */
  function Compare(a: string, b: string): (r: int)
    ensures r <= 0 <==> NotAfter(a, b)
    ensures r > 0 && a != b ==> NotAfter(b, a)
  {
    if a == "?" then 1 else if b == "?" then -1 else Number(a) - Number(b)
  }

  /** One insertion step of the sort: `e` goes before the first line it may precede. */
  function Insert(e: Entry, es: seq<Entry>): (r: seq<Entry>)
    ensures multiset(r) == multiset(es) + multiset{e}
  {
    if es == [] then [e]
    else if Compare(e.value, es[0].value) <= 0 then [e] + es
    else
      assert es == [es[0]] + es[1..];
      [es[0]] + Insert(e, es[1..])
  }

  /** `.sort(...)` with the comparator above, as a stable insertion sort. */
  function Sort(es: seq<Entry>): (r: seq<Entry>)
    ensures multiset(r) == multiset(es)
  {
    if es == [] then []
    else
      assert es == [es[0]] + es[1..];
      Insert(es[0], Sort(es[1..]))
  }

  /** Every line of `es` may follow card `b`. */
  predicate Above(b: string, es: seq<Entry>) {
    forall i | 0 <= i < |es| :: NotAfter(b, es[i].value)
  }

  /** A distribution is ordered exactly when its head may precede the rest and the rest is ordered. */
  lemma OrderedCons(x: Entry, rest: seq<Entry>)
    ensures Ordered([x] + rest) <==> Above(x.value, rest) && Ordered(rest)
  {
    var r := [x] + rest;
    assert forall i | 0 < i < |r| :: r[i] == rest[i - 1];
    if Above(x.value, rest) && Ordered(rest) {
      forall i, j | 0 <= i < j < |r| ensures NotAfter(r[i].value, r[j].value) {
        assert r[j] == rest[j - 1];
        if i > 0 { assert r[i] == rest[i - 1]; }
      }
    }
    if Ordered(r) {
      forall i | 0 <= i < |rest| ensures NotAfter(x.value, rest[i].value) {
        assert r[0] == x && r[i + 1] == rest[i];
      }
      forall i, j | 0 <= i < j < |rest| ensures NotAfter(rest[i].value, rest[j].value) {
        assert r[i + 1] == rest[i] && r[j + 1] == rest[j];
      }
    }
  }

  lemma AboveCons(b: string, x: Entry, rest: seq<Entry>)
    requires NotAfter(b, x.value) && Above(b, rest)
    ensures Above(b, [x] + rest)
  {
    var r := [x] + rest;
    forall i | 0 <= i < |r| ensures NotAfter(b, r[i].value) {
      if i > 0 { assert r[i] == rest[i - 1]; }
    }
  }

  /** Inserting a line that may follow `b` into lines that all may keeps them all after `b`. */
  lemma {:induction false} InsertAbove(b: string, e: Entry, es: seq<Entry>)
    requires NotAfter(b, e.value) && Above(b, es)
    ensures Above(b, Insert(e, es))
  {
    if es == [] {
    } else if Compare(e.value, es[0].value) <= 0 {
      AboveCons(b, e, es);
    } else {
      var tail := es[1..];
      assert forall i | 0 <= i < |tail| :: tail[i] == es[i + 1];
      InsertAbove(b, e, tail);
      AboveCons(b, es[0], Insert(e, tail));
    }
  }

  /** Inserting a card not yet listed into an ordered distribution keeps it ordered. */
  lemma {:induction false} InsertOrdered(e: Entry, es: seq<Entry>)
    requires Ordered(es)
    requires forall i | 0 <= i < |es| :: es[i].value != e.value
    ensures Ordered(Insert(e, es))
  {
    if es == [] {
      OrderedCons(e, []);
    } else {
      var tail := es[1..];
      assert es == [es[0]] + tail;
      OrderedCons(es[0], tail);
      if Compare(e.value, es[0].value) <= 0 {
        forall i | 0 <= i < |es| ensures NotAfter(e.value, es[i].value) {
          if i > 0 { assert NotAfter(es[0].value, es[i].value); }
        }
        OrderedCons(e, es);
      } else {
        assert forall i | 0 <= i < |tail| :: tail[i] == es[i + 1];
        InsertOrdered(e, tail);
        InsertAbove(es[0].value, e, tail);
        OrderedCons(es[0], Insert(e, tail));
      }
    }
  }

  /** Sorting lines whose values are distinct cards puts "?" last and the numbers in ascending order. */
  lemma {:induction false} SortOrdered(es: seq<Entry>)
    requires DistinctValues(es)
    ensures Ordered(Sort(es))
  {
    if es != [] {
      var tail := es[1..];
      assert forall i | 0 <= i < |tail| :: tail[i] == es[i + 1];
      SortOrdered(tail);
      var t := Sort(tail);
      forall i | 0 <= i < |t| ensures t[i].value != es[0].value {
        assert t[i] in multiset(tail);
        var k :| 0 <= k < |tail| && tail[k] == t[i];
      }
      InsertOrdered(es[0], t);
    }
  }

  // -------------------------------------------------------------- average

  function Sum(ns: seq<nat>): nat {
    if ns == [] then 0 else Sum(ns[..|ns| - 1]) + ns[|ns| - 1]
  }

  /** `average`, in tenths: `None` when there is no numeric vote. */
  function Average(ns: seq<nat>): (a: Option<nat>)
    ensures a.None? <==> ns == []
    ensures a.Some? ==> |ns| * (2 * a.value - 1) <= 20 * Sum(ns) < |ns| * (2 * a.value + 1)
  {
    if |ns| > 0 then Some(RoundHalfUp(10 * Sum(ns), |ns|)) else None
  }

  // -------------------------------------------------------------- summary

  datatype Summary = Summary(summary: seq<Entry>, average: Option<nat>)

  /** The result of `calculateVoteSummary(votes)`. */
  function SummaryOf(votes: seq<Participant>): Summary
    requires CardVotes(votes)
  {
    var counted := Counted(votes);
    TotalCovers(votes);
    Summary(Sort(EntriesOf(TallyOf(counted), TotalVotes(votes))), Average(NumericOf(counted)))
  }

  method CalculateVoteSummary(votes: seq<Participant>) returns (summary: seq<Entry>, average: Option<nat>)
    requires CardVotes(votes)
    ensures Summary(summary, average) == SummaryOf(votes)
  {
    var voteCount, numericVotes := Tally(votes);
    var totalVotes := TotalVotes(votes);
    TotalCovers(votes);
    summary := Sort(EntriesOf(voteCount, totalVotes));
    average := Average(numericVotes);
  }
}
