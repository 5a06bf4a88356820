/** Choosing a winner among conflicting versions, and merging their clocks. */
module Resolver {
  import opened Codec
  import opened Types
  import opened VectorClock

  datatype Entry = Entry(key: Bytes, value: Bytes, timestamp: int64, version: Clock, deleted: bool)

  const NO_ENTRY := Entry([], [], 0, map[], false)

  datatype Strategy = LastWriteWins | VectorClockBased | Other

  // ----------------------------------------------------------------- dominance

  /** Entry `i` is below no other entry. */
  ghost predicate Undominated(entries: seq<Entry>, i: nat)
    requires i < |entries|
  {
    forall j :: 0 <= j < |entries| && j != i ==> !(Compared(entries[i].version, entries[j].version) < 0)
  }

  /** The undominated entries among the first `n`, in order. */
  ghost function Candidates(entries: seq<Entry>, n: nat): seq<Entry>
    requires n <= |entries|
  {
    if n == 0 then []
    else Candidates(entries, n - 1) + if Undominated(entries, n - 1) then [entries[n - 1]] else []
  }

  lemma {:induction false} CandidateAt(entries: seq<Entry>, n: nat, e: Entry) returns (i: nat)
    requires n <= |entries| && e in Candidates(entries, n)
    ensures i < n && Undominated(entries, i) && entries[i] == e
  {
    if e in Candidates(entries, n - 1) {
      i := CandidateAt(entries, n - 1, e);
    } else {
      i := n - 1;
    }
  }

  lemma {:induction false} CandidateKept(entries: seq<Entry>, n: nat, i: nat)
    requires i < n <= |entries| && Undominated(entries, i)
    ensures entries[i] in Candidates(entries, n)
  {
    if i < n - 1 { CandidateKept(entries, n - 1, i); }
  }

  /** Among the first `n` entries one is below no other of them. */
  lemma {:induction false} MaximalAmong(entries: seq<Entry>, n: nat) returns (m: nat)
    requires 0 < n <= |entries|
    ensures m < n
    ensures forall j :: 0 <= j < n ==> !(Compared(entries[m].version, entries[j].version) < 0)
  {
    if n == 1 {
      m := 0;
      StrictOrder(entries[0].version, entries[0].version, entries[0].version);
    } else {
      m := MaximalAmong(entries, n - 1);
      var last := entries[n - 1].version;
      if Compared(entries[m].version, last) < 0 {
        forall j | 0 <= j < n
          ensures !(Compared(last, entries[j].version) < 0)
        {
          StrictOrder(entries[m].version, last, entries[j].version);
        }
        m := n - 1;
      }
    }
  }

  /** Vector-clock resolution never runs out of candidates. */
  lemma SomeCandidate(entries: seq<Entry>)
    requires entries != []
    ensures Candidates(entries, |entries|) != []
  {
    var m := MaximalAmong(entries, |entries|);
    CandidateKept(entries, |entries|, m);
  }

  // ----------------------------------------------------------------- resolving

  /** The first of the entries with the greatest timestamp. */
  ghost predicate IsLatest(entries: seq<Entry>, w: Entry) {
    exists i :: 0 <= i < |entries| && entries[i] == w && FirstLatest(entries, i)
  }

  ghost predicate FirstLatest(entries: seq<Entry>, i: nat)
    requires i < |entries|
  {
    && (forall j :: 0 <= j < |entries| ==> entries[j].timestamp <= entries[i].timestamp)
    && (forall j :: 0 <= j < i ==> entries[j].timestamp < entries[i].timestamp)
  }

  /** Indexes its first element, so it must be given one. */
  method ResolveByTimestamp(entries: seq<Entry>) returns (winner: Entry)
    requires entries != []
    ensures IsLatest(entries, winner)
  {
    winner := entries[0];
    ghost var at := 0;
    for i := 1 to |entries|
      invariant at < i && entries[at] == winner
      invariant forall j :: 0 <= j < i ==> entries[j].timestamp <= winner.timestamp
      invariant forall j :: 0 <= j < at ==> entries[j].timestamp < winner.timestamp
    {
      if entries[i].timestamp > winner.timestamp {
        winner, at := entries[i], i;
      }
    }
    assert FirstLatest(entries, at);
  }

  method ResolveByVectorClock(entries: seq<Entry>) returns (winner: Entry)
    requires entries != []
    ensures IsLatest(Candidates(entries, |entries|), winner)
  {
    var candidates: seq<Entry> := [];
    for i := 0 to |entries|
      invariant candidates == Candidates(entries, i)
    {
      var dominated := false;
      var j := 0;
      while j < |entries| && !dominated
        invariant j <= |entries|
        invariant dominated ==> !Undominated(entries, i)
        invariant !dominated ==> forall k :: 0 <= k < j && k != i ==> !(Compared(entries[i].version, entries[k].version) < 0)
      {
        if i != j {
          var order := Compare(entries[i].version, entries[j].version);
          if order < 0 {
            dominated := true;
          }
        }
        j := j + 1;
      }
      if !dominated {
        candidates := candidates + [entries[i]];
      }
    }
    SomeCandidate(entries);
    if |candidates| == 1 {
      assert FirstLatest(candidates, 0);
      return candidates[0];
    }
    winner := ResolveByTimestamp(candidates);
  }

  /** What resolution returns for each strategy; an unknown strategy resolves by timestamp. */
  ghost predicate IsResolution(strategy: Strategy, entries: seq<Entry>, w: Entry) {
    if entries == [] then w == NO_ENTRY
    else if strategy.VectorClockBased? then IsLatest(Candidates(entries, |entries|), w)
    else IsLatest(entries, w)
  }

  /** Entry `i` wins by timestamp: none is later, and none before it is as late. */
  ghost predicate WinsByTimestamp(entries: seq<Entry>, i: nat)
    requires i < |entries|
  {
    && (forall j :: 0 <= j < |entries| ==> entries[j].timestamp <= entries[i].timestamp)
    && (forall j :: 0 <= j < i ==> entries[j].timestamp < entries[i].timestamp)
  }

  /** Entry `i` wins by its clock: below no other, and by timestamp among those that are below no other. */
  ghost predicate WinsByClock(entries: seq<Entry>, i: nat)
    requires i < |entries|
  {
    && Undominated(entries, i)
    && (forall j :: 0 <= j < |entries| && Undominated(entries, j) ==> entries[j].timestamp <= entries[i].timestamp)
    && (forall j :: 0 <= j < i && Undominated(entries, j) ==> entries[j].timestamp < entries[i].timestamp)
  }

  lemma {:induction false} CandidateIndex(entries: seq<Entry>, n: nat, w: Entry) returns (i: nat)
    requires n <= |entries| && IsLatest(Candidates(entries, n), w)
    ensures i < n && Undominated(entries, i) && entries[i] == w
    ensures forall j :: 0 <= j < n && Undominated(entries, j) ==> entries[j].timestamp <= w.timestamp
    ensures forall j :: 0 <= j < i && Undominated(entries, j) ==> entries[j].timestamp < w.timestamp
  {
    var before := Candidates(entries, n - 1);
    if !Undominated(entries, n - 1) {
      assert Candidates(entries, n) == before;
      i := CandidateIndex(entries, n - 1, w);
    } else if IsLatest(before, w) && entries[n - 1].timestamp <= w.timestamp {
      i := CandidateIndex(entries, n - 1, w);
    } else {
      LastIsLatest(before, entries[n - 1], w);
      i := n - 1;
      forall j | 0 <= j < i && Undominated(entries, j)
        ensures entries[j].timestamp < w.timestamp
      {
        CandidateKept(entries, n - 1, j);
      }
    }
  }

  /** The first latest of a longer list is that of the shorter one or the entry that came in addition. */
  lemma LastIsLatest(before: seq<Entry>, last: Entry, w: Entry)
    requires IsLatest(before + [last], w)
    ensures || (IsLatest(before, w) && last.timestamp <= w.timestamp)
            || (w == last && forall e :: e in before ==> e.timestamp < w.timestamp)
  {
    var cs := before + [last];
    var p :| 0 <= p < |cs| && cs[p] == w && FirstLatest(cs, p);
    assert cs[|before|] == last && forall q :: 0 <= q < |before| ==> cs[q] == before[q];
    if p < |before| { assert before[p] == w && FirstLatest(before, p); }
  }

  /** The winner by each strategy, from the entries alone; any strategy but the clocks goes by timestamp. */
  lemma WinnerExactly(strategy: Strategy, entries: seq<Entry>, w: Entry)
    requires entries != [] && IsResolution(strategy, entries, w)
    ensures strategy.VectorClockBased? ==> exists i :: 0 <= i < |entries| && entries[i] == w && WinsByClock(entries, i)
    ensures !strategy.VectorClockBased? ==> exists i :: 0 <= i < |entries| && entries[i] == w && WinsByTimestamp(entries, i)
  {
    if strategy.VectorClockBased? {
      var i := CandidateIndex(entries, |entries|, w);
      assert WinsByClock(entries, i);
    } else {
      var i :| 0 <= i < |entries| && entries[i] == w && FirstLatest(entries, i);
      assert WinsByTimestamp(entries, i);
    }
  }

  method Resolve(strategy: Strategy, entries: seq<Entry>) returns (winner: Entry)
    ensures IsResolution(strategy, entries, winner)
    ensures entries == [] ==> winner == NO_ENTRY
    ensures entries != [] && strategy.VectorClockBased? ==> exists i :: 0 <= i < |entries| && entries[i] == winner && WinsByClock(entries, i)
    ensures entries != [] && !strategy.VectorClockBased? ==> exists i :: 0 <= i < |entries| && entries[i] == winner && WinsByTimestamp(entries, i)
  {
    winner := Choose(strategy, entries);
    if entries != [] { WinnerExactly(strategy, entries, winner); }
  }

  method Choose(strategy: Strategy, entries: seq<Entry>) returns (winner: Entry)
    ensures IsResolution(strategy, entries, winner)
  {
    if |entries| == 0 {
      return NO_ENTRY;
    }
    if |entries| == 1 {
      SomeCandidate(entries);
      assert Candidates(entries, 0) == [];
      assert Candidates(entries, 1) == entries;
      assert FirstLatest(entries, 0);
      return entries[0];
    }
    match strategy
    case LastWriteWins => winner := ResolveByTimestamp(entries);
    case VectorClockBased => winner := ResolveByVectorClock(entries);
    case Other => winner := ResolveByTimestamp(entries);
  }

  /**
   * Vector-clock resolution of any non-empty list has a winner, every winner is one of the
   * entries, is dominated by none of them, and has the greatest timestamp of the undominated ones.
   */
  lemma VectorClockWinner(entries: seq<Entry>)
    requires entries != []
    ensures exists w :: IsResolution(VectorClockBased, entries, w)
    ensures forall w :: IsResolution(VectorClockBased, entries, w) ==>
              && (exists i :: 0 <= i < |entries| && entries[i] == w && Undominated(entries, i))
              && (forall j :: 0 <= j < |entries| ==> !(Compared(w.version, entries[j].version) < 0))
              && (forall j :: 0 <= j < |entries| && Undominated(entries, j) ==> entries[j].timestamp <= w.timestamp)
  {
    var cs := Candidates(entries, |entries|);
    SomeCandidate(entries);
    var first := FirstOfLatest(cs, |cs|);
    assert IsLatest(cs, cs[first]);
    assert IsResolution(VectorClockBased, entries, cs[first]);
    forall w | IsResolution(VectorClockBased, entries, w)
      ensures && (exists i :: 0 <= i < |entries| && entries[i] == w && Undominated(entries, i))
              && (forall j :: 0 <= j < |entries| ==> !(Compared(w.version, entries[j].version) < 0))
              && (forall j :: 0 <= j < |entries| && Undominated(entries, j) ==> entries[j].timestamp <= w.timestamp)
    {
      WinnerProperties(entries, w);
    }
  }

  lemma {:induction false} FirstOfLatest(entries: seq<Entry>, n: nat) returns (i: nat)
    requires 0 < n <= |entries|
    ensures i < n
    ensures forall j :: 0 <= j < n ==> entries[j].timestamp <= entries[i].timestamp
    ensures forall j :: 0 <= j < i ==> entries[j].timestamp < entries[i].timestamp
  {
    if n == 1 {
      i := 0;
    } else {
      i := FirstOfLatest(entries, n - 1);
      if entries[n - 1].timestamp > entries[i].timestamp { i := n - 1; }
    }
  }

  lemma WinnerProperties(entries: seq<Entry>, w: Entry)
    requires IsLatest(Candidates(entries, |entries|), w)
    ensures exists i :: 0 <= i < |entries| && entries[i] == w && Undominated(entries, i)
    ensures forall j :: 0 <= j < |entries| ==> !(Compared(w.version, entries[j].version) < 0)
    ensures forall j :: 0 <= j < |entries| && Undominated(entries, j) ==> entries[j].timestamp <= w.timestamp
  {
    var cs := Candidates(entries, |entries|);
    var i := CandidateAt(entries, |entries|, w);
    StrictOrder(w.version, w.version, w.version);
    forall j | 0 <= j < |entries| && Undominated(entries, j)
      ensures entries[j].timestamp <= w.timestamp
    {
      CandidateKept(entries, |entries|, j);
    }
  }

  // ------------------------------------------------------------------- merging

  function MergedClock(entries: seq<Entry>): Clock {
    if entries == [] then map[]
    else Merged(MergedClock(entries[..|entries| - 1]), entries[|entries| - 1].version)
  }

  /** Some winner's key, value and timestamp. */
  ghost predicate CarriesWinner(strategy: Strategy, entries: seq<Entry>, merged: Entry) {
    exists i :: 0 <= i < |entries| && IsResolution(strategy, entries, entries[i]) && merged.(version := map[]) == entries[i].(version := map[])
  }

  method MergeClocks(entries: seq<Entry>) returns (clock: Clock)
    ensures clock == MergedClock(entries)
  {
    clock := map[];
    for i := 0 to |entries|
      invariant clock == MergedClock(entries[..i])
    {
      assert entries[..i + 1][..i] == entries[..i];
      clock := Merge(clock, entries[i].version);
    }
    assert entries[..|entries|] == entries;
  }

  /** The winner under the merged clock of all entries, one step further at the merging node. */
  method MergeEntries(strategy: Strategy, entries: seq<Entry>, node: Node) returns (merged: Entry)
    ensures entries == [] ==> merged == NO_ENTRY
    ensures entries != [] ==> CarriesWinner(strategy, entries, merged) && merged.version == Increment(MergedClock(entries), node)
  {
    if |entries| == 0 {
      return NO_ENTRY;
    }
    var chosen := Resolve(strategy, entries);
    WinnerIsEntry(strategy, entries, chosen);
    var clock := MergeClocks(entries);
    merged := chosen.(version := Increment(clock, node));
  }

  lemma WinnerIsEntry(strategy: Strategy, entries: seq<Entry>, winner: Entry)
    requires entries != [] && IsResolution(strategy, entries, winner)
    ensures winner in entries
  {
    if strategy.VectorClockBased? { WinnerProperties(entries, winner); }
  }

  /** The merged clock is at each component the greatest of the entries' components. */
  lemma {:induction false} MergedClockAt(entries: seq<Entry>, n: Node)
    ensures forall i :: 0 <= i < |entries| ==> At(entries[i].version, n) <= At(MergedClock(entries), n)
    ensures At(MergedClock(entries), n) > 0 ==> exists i :: 0 <= i < |entries| && At(entries[i].version, n) == At(MergedClock(entries), n)
  {
    if entries == [] {
    } else {
      var init, last := entries[..|entries| - 1], entries[|entries| - 1];
      MergedClockAt(init, n);
      MergedAt(MergedClock(init), last.version, n);
      assert forall i :: 0 <= i < |init| ==> init[i] == entries[i];
      if At(MergedClock(entries), n) > 0 && At(last.version, n) < At(MergedClock(init), n) {
        var i :| 0 <= i < |init| && At(init[i].version, n) == At(MergedClock(init), n);
        assert At(entries[i].version, n) == At(MergedClock(entries), n);
      }
    }
  }

  /** A merge is above every version it merged exactly when the merging node's counter does not wrap. */
  lemma MergeDominates(entries: seq<Entry>, node: Node)
    requires entries != []
    ensures (forall i :: 0 <= i < |entries| ==> Compared(entries[i].version, Increment(MergedClock(entries), node)) < 0)
            <==> At(MergedClock(entries), node) + 1 < SPACE
  {
    var m := MergedClock(entries);
    var c := Increment(m, node);
    if At(m, node) + 1 < SPACE {
      forall i | 0 <= i < |entries|
        ensures Compared(entries[i].version, c) < 0
      {
        AboveEntry(entries, node, i);
      }
    } else {
      var i := NotAboveWrapped(entries, node);
    }
  }

  /** A counter that wraps is below that of the entry it came from. */
  lemma NotAboveWrapped(entries: seq<Entry>, node: Node) returns (i: nat)
    requires entries != [] && At(MergedClock(entries), node) + 1 == SPACE
    ensures i < |entries| && !(Compared(entries[i].version, Increment(MergedClock(entries), node)) < 0)
  {
    var m := MergedClock(entries);
    MergedClockAt(entries, node);
    i :| i < |entries| && At(entries[i].version, node) == At(m, node);
    StrictOrder(entries[i].version, Increment(m, node), m);
    assert At(Increment(m, node), node) == 0;
  }

  lemma AboveEntry(entries: seq<Entry>, node: Node, i: nat)
    requires i < |entries| && At(MergedClock(entries), node) + 1 < SPACE
    ensures Compared(entries[i].version, Increment(MergedClock(entries), node)) < 0
  {
    var v, m := entries[i].version, MergedClock(entries);
    var c := Increment(m, node);
    forall n
      ensures At(v, n) <= At(m, n) && At(c, n) == At(m, n) + if n == node then 1 else 0
    {
      MergedClockAt(entries, n);
      IncrementAt(m, node, n);
    }
    assert At(v, node) < At(c, node);
    assert Leq(v, c) && !Leq(c, v);
    StrictOrder(v, c, c);
  }
}
