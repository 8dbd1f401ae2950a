/**
  What `calculateVoteSummary` promises about its result, proved about the
  model in module `VoteSummary`: spectators do not count, the distribution
  lists every counted value once with its exact count and share, in card
  order, and the average reads only the numeric votes.
 */
module SummaryLaws {
  import opened Wrappers
  import opened OrderedMaps
  import opened Participants
  import opened VoteSummary

  // ------------------------------------------------------------ spectators

  lemma {:induction false} CountedAppend(x: seq<Participant>, y: seq<Participant>)
    ensures Counted(x + y) == Counted(x) + Counted(y)
  {
    if y != [] {
      var init := y[..|y| - 1];
      assert (x + y)[..|x + y| - 1] == x + init;
      CountedAppend(x, init);
    } else {
      assert x + y == x;
    }
  }

  lemma {:induction false} TotalAppend(x: seq<Participant>, y: seq<Participant>)
    ensures TotalVotes(x + y) == TotalVotes(x) + TotalVotes(y)
  {
    if y != [] {
      var init := y[..|y| - 1];
      assert (x + y)[..|x + y| - 1] == x + init;
      TotalAppend(x, init);
    } else {
      assert x + y == x;
    }
  }

  lemma CardVotesWithout(a: seq<Participant>, p: Participant, b: seq<Participant>)
    requires p.isSpectator && CardVotes(a + b)
    ensures CardVotes(a + [p] + b)
  {
    var w, v := a + [p] + b, a + b;
    forall i | 0 <= i < |w| && !w[i].isSpectator && w[i].vote.Some? && w[i].vote.value != ""
      ensures Card(w[i].vote.value)
    {
      if i < |a| {
        assert w[i] == v[i];
      } else {
        assert i > |a| && w[i] == v[i - 1];
      }
    }
  }

  lemma CountedWithout(a: seq<Participant>, p: Participant, b: seq<Participant>)
    requires p.isSpectator
    ensures Counted(a + [p] + b) == Counted(a + b)
    ensures TotalVotes(a + [p] + b) == TotalVotes(a + b)
  {
    assert [p][..0] == [];
    assert Counted([p]) == [] && TotalVotes([p]) == 0;
    CountedAppend(a, [p]);
    assert Counted(a + [p]) == Counted(a);
    CountedAppend(a + [p], b);
    CountedAppend(a, b);
    TotalAppend(a, [p]);
    TotalAppend(a + [p], b);
    TotalAppend(a, b);
  }

  /** The summary depends on the votes only through what is counted and `totalVotes`. */
  lemma SummaryParts(votes: seq<Participant>)
    requires CardVotes(votes)
    ensures SummaryOf(votes).summary == Sort(EntriesOf(TallyOf(Counted(votes)), TotalVotes(votes)))
    ensures SummaryOf(votes).average == Average(NumericOf(Counted(votes)))
  {
    TotalCovers(votes);
  }

  /** A spectator's entry, whatever vote it holds, changes nothing in the summary. */
  lemma SpectatorIgnored(a: seq<Participant>, p: Participant, b: seq<Participant>)
    requires p.isSpectator
    requires CardVotes(a + b)
    ensures CardVotes(a + [p] + b)
    ensures SummaryOf(a + [p] + b) == SummaryOf(a + b)
  {
    CardVotesWithout(a, p, b);
    CountedWithout(a, p, b);
    SummaryParts(a + [p] + b);
    SummaryParts(a + b);
  }

  // ---------------------------------------------------------- distribution

  /** The distribution lines of `votes`, before and after sorting. */
  function Lines(votes: seq<Participant>): (es: seq<Entry>)
    requires CardVotes(votes)
    ensures SummaryOf(votes).summary == Sort(es)
  {
    TotalCovers(votes);
    EntriesOf(TallyOf(Counted(votes)), TotalVotes(votes))
  }

  /** The tally turned into lines: one per distinct vote, with its exact count and share. */
  lemma TallyDescribes(vs: seq<string>, total: nat)
    requires |vs| <= total
    ensures Describes(EntriesOf(TallyOf(vs), total), vs, total)
  {
    var t := TallyOf(vs);
    TallyCounts(vs);
    var es := EntriesOf(t, total);
    forall v | v in vs ensures exists i :: 0 <= i < |es| && es[i].value == v {
      var i :| 0 <= i < |t.keys| && t.keys[i] == v;
      assert es[i].value == v;
    }
    forall i | 0 <= i < |es| ensures es[i].value in vs {
      assert t.Has(t.keys[i]);
    }
  }

  lemma LinesExact(votes: seq<Participant>)
    requires CardVotes(votes)
    ensures Describes(Lines(votes), Counted(votes), TotalVotes(votes))
  {
    TotalCovers(votes);
    TallyDescribes(Counted(votes), TotalVotes(votes));
  }

  /** The lines of a distinct list with `e` put in, `e` holding a value none of them has, are distinct. */
  lemma {:induction false} InsertDistinct(e: Entry, es: seq<Entry>)
    requires DistinctValues(es)
    requires forall i | 0 <= i < |es| :: es[i].value != e.value
    ensures DistinctValues(Insert(e, es))
  {
    var r := Insert(e, es);
    if es != [] && Compare(e.value, es[0].value) > 0 {
      var tail := es[1..];
      assert forall i | 0 <= i < |tail| :: tail[i] == es[i + 1];
      InsertDistinct(e, tail);
      var rest := Insert(e, tail);
      assert r == [es[0]] + rest;
      forall i | 0 <= i < |rest| ensures rest[i].value != es[0].value {
        assert rest[i] in multiset(tail) + multiset{e};
        if rest[i] != e {
          var k :| 0 <= k < |tail| && tail[k] == rest[i];
        }
      }
      forall i, j | 0 <= i < j < |r| ensures r[i].value != r[j].value {
        assert r[j] == rest[j - 1];
        if i > 0 { assert r[i] == rest[i - 1]; }
      }
    } else if es != [] {
      assert r == [e] + es;
      forall i, j | 0 <= i < j < |r| ensures r[i].value != r[j].value {
        assert r[j] == es[j - 1];
        if i > 0 { assert r[i] == es[i - 1]; }
      }
    }
  }

  lemma {:induction false} SortDistinct(es: seq<Entry>)
    requires DistinctValues(es)
    ensures DistinctValues(Sort(es))
  {
    if es != [] {
      var tail := es[1..];
      assert forall i | 0 <= i < |tail| :: tail[i] == es[i + 1];
      SortDistinct(tail);
      var t := Sort(tail);
      forall i | 0 <= i < |t| ensures t[i].value != es[0].value {
        assert t[i] in multiset(tail);
        var k :| 0 <= k < |tail| && tail[k] == t[i];
      }
      InsertDistinct(es[0], t);
    }
  }

  /** Lines that describe the votes `vs` exactly. */
  ghost predicate Describes(es: seq<Entry>, vs: seq<string>, total: nat) {
    && DistinctValues(es)
    && (forall v | v in vs :: exists i :: 0 <= i < |es| && es[i].value == v)
    && forall i | 0 <= i < |es| ::
         && es[i].value in vs
         && es[i].count == multiset(vs)[es[i].value]
         && total > 0
         && es[i].percentage == RoundHalfUp(100 * es[i].count, total)
  }

  /** Lines with the same elements hold the same values. */
  lemma SameMembers(a: seq<Entry>, b: seq<Entry>)
    requires multiset(a) == multiset(b)
    ensures forall x :: x in a <==> x in b
  {
    forall x ensures x in a <==> x in b {
      assert x in a <==> x in multiset(a);
      assert x in b <==> x in multiset(b);
    }
  }

  /** Sorting keeps lines describing the same votes, and orders them. */
  lemma SortDescribes(es: seq<Entry>, vs: seq<string>, total: nat)
    requires Describes(es, vs, total)
    ensures Describes(Sort(es), vs, total) && Ordered(Sort(es))
  {
    var s := Sort(es);
    SortOrdered(es);
    SortDistinct(es);
    SameMembers(s, es);
    forall i | 0 <= i < |s|
      ensures s[i].value in vs && s[i].count == multiset(vs)[s[i].value]
      ensures total > 0 && s[i].percentage == RoundHalfUp(100 * s[i].count, total)
    {
      assert s[i] in es;
      var j :| 0 <= j < |es| && es[j] == s[i];
    }
    forall v | v in vs ensures exists i :: 0 <= i < |s| && s[i].value == v {
      var j :| 0 <= j < |es| && es[j].value == v;
      assert es[j] in s;
      var i :| 0 <= i < |s| && s[i] == es[j];
    }
  }

  /**
    The summary lists each counted vote value exactly once, with how often it
    was cast and its share of `totalVotes` rounded to a whole percent, "?"
    last and the numbers in ascending order.
   */
  lemma Distribution(votes: seq<Participant>)
    requires CardVotes(votes)
    ensures Describes(SummaryOf(votes).summary, Counted(votes), TotalVotes(votes))
    ensures Ordered(SummaryOf(votes).summary)
  {
    LinesExact(votes);
    SortDescribes(Lines(votes), Counted(votes), TotalVotes(votes));
  }

  lemma {:induction false} CountAtMost(vs: seq<string>, x: string)
    ensures multiset(vs)[x] <= |vs|
  {
    if vs != [] {
      var init := vs[..|vs| - 1];
      assert vs == init + [vs[|vs| - 1]];
      CountAtMost(init, x);
    }
  }

  lemma PercentOf(vs: seq<string>, e: Entry, total: nat)
    requires total >= |vs| && e.count == multiset(vs)[e.value]
    requires total > 0 && e.percentage == RoundHalfUp(100 * e.count, total)
    ensures e.count <= total && e.percentage <= 100
  {
    CountAtMost(vs, e.value);
    var r, d := e.percentage, total;
    assert d * (2 * r - 1) <= 200 * e.count <= 200 * d;
  }

  /** No share exceeds 100 percent. */
  lemma PercentBound(votes: seq<Participant>)
    requires CardVotes(votes)
    ensures forall e | e in SummaryOf(votes).summary :: e.count <= TotalVotes(votes) && e.percentage <= 100
  {
    var s, vs, total := SummaryOf(votes).summary, Counted(votes), TotalVotes(votes);
    Distribution(votes);
    TotalCovers(votes);
    forall e | e in s ensures e.count <= total && e.percentage <= 100 {
      var i :| 0 <= i < |s| && s[i] == e;
      PercentOf(vs, e, total);
    }
  }

  // -------------------------------------------------------- counts add up

  /** The sum of the counts of the lines `es`. */
  function Counts(es: seq<Entry>): nat {
    if es == [] then 0 else es[0].count + Counts(es[1..])
  }

  lemma {:induction false} WithoutCount(s: seq<string>, k: string)
    ensures forall x | x != k :: multiset(Without(s, k))[x] == multiset(s)[x]
    ensures |Without(s, k)| + multiset(s)[k] == |s|
  {
    if s != [] {
      var init, last := s[..|s| - 1], s[|s| - 1];
      assert s == init + [last];
      WithoutCount(init, k);
    }
  }

  /**
    Lines with distinct values that name exactly the values of `vs`, each
    with its number of occurrences, count every element of `vs` once.
   */
  lemma {:induction false} CountsCover(es: seq<Entry>, vs: seq<string>)
    requires DistinctValues(es)
    requires forall i | 0 <= i < |es| :: es[i].value in vs && es[i].count == multiset(vs)[es[i].value]
    requires forall k | 0 <= k < |vs| :: exists i :: 0 <= i < |es| && es[i].value == vs[k]
    ensures Counts(es) == |vs|
  {
    if es == [] {
      if vs != [] {
        assert false;
      }
    } else {
      var e, tail := es[0], es[1..];
      var rest := Without(vs, e.value);
      WithoutCount(vs, e.value);
      forall i | 0 <= i < |tail| ensures tail[i].value in rest && tail[i].count == multiset(rest)[tail[i].value] {
        assert tail[i] == es[i + 1] && es[i + 1].value != e.value;
      }
      forall k | 0 <= k < |rest| ensures exists i :: 0 <= i < |tail| && tail[i].value == rest[k] {
        var v := rest[k];
        assert v in vs;
        var m :| 0 <= m < |vs| && vs[m] == v;
        var i :| 0 <= i < |es| && es[i].value == vs[m];
        assert i > 0 && tail[i - 1] == es[i];
      }
      assert DistinctValues(tail) by {
        forall i, j | 0 <= i < j < |tail| ensures tail[i].value != tail[j].value {
          assert tail[i] == es[i + 1] && tail[j] == es[j + 1];
        }
      }
      CountsCover(tail, rest);
    }
  }

  lemma {:induction false} CountsInsert(e: Entry, es: seq<Entry>)
    ensures Counts(Insert(e, es)) == Counts(es) + e.count
  {
    if es == [] {
      assert [e][1..] == [];
    } else if Compare(e.value, es[0].value) <= 0 {
      assert ([e] + es)[1..] == es;
    } else {
      CountsInsert(e, es[1..]);
      assert ([es[0]] + Insert(e, es[1..]))[1..] == Insert(e, es[1..]);
    }
  }

  lemma {:induction false} CountsSort(es: seq<Entry>)
    ensures Counts(Sort(es)) == Counts(es)
  {
    if es != [] {
      CountsSort(es[1..]);
      CountsInsert(es[0], Sort(es[1..]));
    }
  }

  /**
    The counts of the summary add up to the number of counted votes, which is
    `totalVotes` unless some voter voted the empty string.
   */
  lemma CountsAddUp(votes: seq<Participant>)
    requires CardVotes(votes)
    ensures Counts(SummaryOf(votes).summary) == |Counted(votes)|
    ensures NoBlankVotes(votes) ==> Counts(SummaryOf(votes).summary) == TotalVotes(votes)
  {
    TotalCovers(votes);
    LinesExact(votes);
    var vs := Counted(votes);
    assert forall k | 0 <= k < |vs| :: vs[k] in vs;
    CountsCover(Lines(votes), vs);
    CountsSort(Lines(votes));
  }

  // --------------------------------------------------------------- average

  lemma {:induction false} AllOf(vs: seq<string>, x: string)
    ensures multiset(vs)[x] == |vs| <==> forall v | v in vs :: v == x
  {
    if vs != [] {
      var init, last := vs[..|vs| - 1], vs[|vs| - 1];
      assert vs == init + [last];
      AllOf(init, x);
      assert forall v :: v in vs <==> v in init || v == last;
      assert last in vs;
      if last != x {
        CountAtMost(init, x);
        assert multiset(vs)[x] == multiset(init)[x];
      } else {
        assert multiset(vs)[x] == multiset(init)[x] + 1;
      }
    }
  }

  /** There is no average exactly when every counted vote is "?" (or none was cast). */
  lemma NoAverage(votes: seq<Participant>)
    requires CardVotes(votes)
    ensures SummaryOf(votes).average.None? <==> forall v | v in Counted(votes) :: v == "?"
  {
    SummaryParts(votes);
    AllOf(Counted(votes), "?");
  }

  lemma CountedSnoc(votes: seq<Participant>, p: Participant)
    ensures Counted(votes + [p]) == Counted(votes) + Ballot(p)
  {
    var w := votes + [p];
    assert w[..|w| - 1] == votes;
  }

  lemma CardVotesSnoc(votes: seq<Participant>, p: Participant)
    requires CardVotes(votes)
    requires Ballot(p) != [] ==> Card(p.vote.value)
    ensures CardVotes(votes + [p])
  {
    var w := votes + [p];
    forall i | 0 <= i < |w| && !w[i].isSpectator && w[i].vote.Some? && w[i].vote.value != ""
      ensures Card(w[i].vote.value)
    {
      if i < |votes| { assert w[i] == votes[i]; }
    }
  }

  /** One more "?" vote changes the distribution but never the average. */
  lemma QuestionKeepsAverage(votes: seq<Participant>, p: Participant)
    requires CardVotes(votes) && !p.isSpectator && p.vote == Some("?")
    ensures CardVotes(votes + [p])
    ensures SummaryOf(votes + [p]).average == SummaryOf(votes).average
  {
    assert Ballot(p) == ["?"];
    CardVotesSnoc(votes, p);
    CountedSnoc(votes, p);
    var vs := Counted(votes);
    NumericStep(vs, "?");
    assert NumericOf(vs + ["?"]) == NumericOf(vs);
    SummaryParts(votes);
    SummaryParts(votes + [p]);
  }
}
