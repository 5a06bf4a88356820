/**
 * The coordinator's operations on the stores of all nodes. What the network does to each request
 * is a parameter; each operation is a series of `Quorum` steps.
 */
module Coordinator {
  import opened Availability
  import opened Codec
  import opened Quorum
  import opened Ring
  import opened Sequences
  import opened Types
  import H = HashRing

  datatype PutResult = PutOk | QuorumNotMet(got: nat, needed: int) | NoRing | PutPanic

  datatype GetResult = GetOk(copy: Copy) | KeyNotFound | NoPreference | GetPanic

  // ------------------------------------------------------------------- replies

  /** The copies heard from the first `k` nodes, in list order. */
  function HeardCopies(replicas: map<Node, Copy>, nodes: seq<Node>, heard: seq<bool>, k: nat): seq<Copy>
    requires k <= |nodes| <= |heard|
  {
    if k == 0 then []
    else
      var before := HeardCopies(replicas, nodes, heard, k - 1);
      if heard[k - 1] && nodes[k - 1] in replicas then before + [replicas[nodes[k - 1]]] else before
  }

  /** On a list without repeats the copies heard are the replies, one each. */
  lemma {:induction false} HeardAreReplies(replicas: map<Node, Copy>, nodes: seq<Node>, heard: seq<bool>, k: nat)
    requires k <= |nodes| <= |heard| && NoRepeats(nodes)
    ensures |HeardCopies(replicas, nodes, heard, k)| == |RepliesOf(replicas, nodes, heard, k)|
    ensures forall c :: c in HeardCopies(replicas, nodes, heard, k) <==> exists n :: n in RepliesOf(replicas, nodes, heard, k) && RepliesOf(replicas, nodes, heard, k)[n] == c
  {
    if k == 0 {
    } else {
      HeardAreReplies(replicas, nodes, heard, k - 1);
      var n := nodes[k - 1];
      var before, after := RepliesOf(replicas, nodes, heard, k - 1), RepliesOf(replicas, nodes, heard, k);
      if heard[k - 1] && n in replicas {
        if n in before {
          var i := ReplyCame(replicas, nodes, heard, k - 1, n);
          NoRepeatsMeans(nodes);
        }
        assert after.Keys == before.Keys + {n};
        forall c | c in HeardCopies(replicas, nodes, heard, k)
          ensures exists m :: m in after && after[m] == c
        {
          if c in HeardCopies(replicas, nodes, heard, k - 1) {
            var m :| m in before && before[m] == c;
            assert after[m] == c;
          } else {
            assert after[n] == c;
          }
        }
      }
    }
  }

  ghost predicate NewestFirst(copies: seq<Copy>) {
    forall i, j :: 0 <= i < j < |copies| ==> copies[i].timestamp >= copies[j].timestamp
  }

  /** Inserts the copy behind those at least as new. */
  function InsertByAge(copies: seq<Copy>, c: Copy): (r: seq<Copy>)
    ensures multiset(r) == multiset(copies) + multiset{c}
  {
    if copies == [] || copies[|copies| - 1].timestamp >= c.timestamp then copies + [c]
    else
      assert copies == copies[..|copies| - 1] + [copies[|copies| - 1]];
      InsertByAge(copies[..|copies| - 1], c) + [copies[|copies| - 1]]
  }

  lemma AppendOldest(copies: seq<Copy>, c: Copy)
    requires NewestFirst(copies) && forall i :: 0 <= i < |copies| ==> copies[i].timestamp >= c.timestamp
    ensures NewestFirst(copies + [c])
  {
  }

  lemma {:induction false} InsertKeepsAge(copies: seq<Copy>, c: Copy)
    requires NewestFirst(copies)
    ensures NewestFirst(InsertByAge(copies, c))
  {
    if copies == [] || copies[|copies| - 1].timestamp >= c.timestamp {
      AppendOldest(copies, c);
    } else {
      var front, last := copies[..|copies| - 1], copies[|copies| - 1];
      InsertKeepsAge(front, c);
      var r := InsertByAge(front, c);
      forall i | 0 <= i < |r|
        ensures r[i].timestamp >= last.timestamp
      {
        assert r[i] in multiset(r);
        assert r[i] == c || r[i] in front;
      }
      AppendOldest(r, last);
    }
  }

  /** The library's sort by descending timestamp: some such rearrangement. */
  method SortNewestFirst(copies: seq<Copy>) returns (r: seq<Copy>)
    ensures NewestFirst(r) && multiset(r) == multiset(copies)
  {
    r := [];
    for i := 0 to |copies|
      invariant NewestFirst(r) && multiset(r) == multiset(copies[..i])
    {
      assert copies[..i + 1] == copies[..i] + [copies[i]];
      InsertKeepsAge(r, copies[i]);
      r := InsertByAge(r, copies[i]);
    }
    assert copies[..|copies|] == copies;
  }

  lemma HeadIsLatest(replicas: map<Node, Copy>, nodes: seq<Node>, heard: seq<bool>, sorted: seq<Copy>)
    requires |nodes| <= |heard| && NoRepeats(nodes) && sorted != [] && NewestFirst(sorted)
    requires multiset(sorted) == multiset(HeardCopies(replicas, nodes, heard, |nodes|))
    ensures IsLatest(RepliesOf(replicas, nodes, heard, |nodes|), sorted[0])
  {
    HeardAreReplies(replicas, nodes, heard, |nodes|);
    var replies := RepliesOf(replicas, nodes, heard, |nodes|);
    var copies := HeardCopies(replicas, nodes, heard, |nodes|);
    assert sorted[0] in multiset(copies);
    assert sorted[0] in copies;
    forall n | n in replies
      ensures replies[n].timestamp <= sorted[0].timestamp
    {
      assert replies[n] in copies;
      assert replies[n] in multiset(sorted);
      var i :| 0 <= i < |sorted| && sorted[i] == replies[n];
    }
  }

  /** What `Get` answers is at least as new as every acknowledged Put, when the requirements overlap by more than the late writes. */
  lemma GetIsFresh(c: Config, nodes: seq<Node>, put: Level, get: Level, s: State, coordinator: Node, heard: seq<bool>, latest: Copy)
    requires ValidConfig(c) && NoRepeats(nodes) && |nodes| <= |heard|
    requires WriteNeeds(c, put) + ReadNeeds(c, get) > |nodes| + s.late
    requires Reachable(c, nodes, {put}, {get}, s) && s.phase.Idle?
    requires var replies := RepliesOf(s.replicas, nodes, heard, |nodes|); ReadNeeds(c, get) <= |replies| && IsLatest(replies, latest)
    ensures s.acked.Newest? ==> s.acked.timestamp <= latest.timestamp
  {
    var replies := RepliesOf(s.replicas, nodes, heard, |nodes|);
    GetReaches(c, nodes, {put}, {get}, s, heard, coordinator, get);
    var t := s.(phase := Reading(coordinator, ReadNeeds(c, get), replies));
    FreshExactlyWhenOverlapping(c, nodes, put, get, s.late);
    assert replies != map[] && |replies| > 0;
    assert Enabled(nodes, t, EndGet(latest));
    assert FreshStep(c, nodes, t, EndGet(latest));
  }

  /** A `Get` that hears from all nodes finds an acknowledged key, when it needs no more answers than the Put acknowledgements. */
  lemma GetFindsAcknowledged(c: Config, nodes: seq<Node>, put: Level, get: Level, s: State, coordinator: Node, heard: seq<bool>)
    requires ValidConfig(c) && NoRepeats(nodes) && AllHeard(nodes, heard) && ReadNeeds(c, get) <= WriteNeeds(c, put)
    requires Reachable(c, nodes, {put}, {get}, s) && s.phase.Idle? && s.acked.Newest?
    ensures ReadNeeds(c, get) <= |RepliesOf(s.replicas, nodes, heard, |nodes|)|
  {
    GetReaches(c, nodes, {put}, {get}, s, heard, coordinator, get);
    AskedAllAnswered(c, nodes, s, heard, coordinator, get);
    FoundExactly(c, nodes, put, get);
    assert AllAnswered(nodes, AskedAll(c, nodes, s, heard, coordinator, get));
  }

  // -------------------------------------------------------------------- levels

  /** On distinct nodes an acknowledged node is one whose own request was. */
  lemma {:induction false} AckedExactly(nodes: seq<Node>, fates: seq<Fate>, k: nat, i: nat)
    requires k <= |nodes| <= |fates| && i < |nodes| && NoRepeats(nodes)
    ensures nodes[i] in AckedBy(nodes, fates, k) <==> i < k && fates[i].AppliedAndAcked?
  {
    NoRepeatsMeans(nodes);
    if k == 0 {
    } else {
      AckedExactly(nodes, fates, k - 1, i);
    }
  }

  /** Enough acknowledgements for a level: from all replicas, from some replica, or the write quorum. */
  lemma AcksByLevel(c: Config, nodes: seq<Node>, fates: seq<Fate>)
    requires NoRepeats(nodes) && |nodes| <= |fates|
    ensures var acks := AckedBy(nodes, fates, |nodes|);
            && (|nodes| == c.replicationFactor ==>
                  (WriteNeeds(c, LevelAll) <= |acks| <==> forall i :: 0 <= i < |nodes| ==> fates[i].AppliedAndAcked?))
            && (WriteNeeds(c, LevelOne) <= |acks| <==> exists i :: 0 <= i < |nodes| && fates[i].AppliedAndAcked?)
            && (WriteNeeds(c, LevelQuorum) <= |acks| <==> c.writeQuorum <= |acks|)
  {
    var acks := AckedBy(nodes, fates, |nodes|);
    forall i | 0 <= i < |nodes|
      ensures nodes[i] in acks <==> fates[i].AppliedAndAcked?
    {
      AckedExactly(nodes, fates, |nodes|, i);
    }
    AckedAreMembers(nodes, fates, |nodes|);
    assert nodes[..|nodes|] == nodes;
    AllOrSome(nodes, acks);
  }

  /** The node was heard, and it has a copy. */
  predicate Replied(replicas: map<Node, Copy>, nodes: seq<Node>, heard: seq<bool>, i: int) {
    0 <= i < |nodes| && i < |heard| && heard[i] && nodes[i] in replicas
  }

  lemma RepliedExactly(replicas: map<Node, Copy>, nodes: seq<Node>, heard: seq<bool>, i: nat)
    requires i < |nodes| <= |heard| && NoRepeats(nodes)
    ensures nodes[i] in RepliesOf(replicas, nodes, heard, |nodes|) <==> Replied(replicas, nodes, heard, i)
  {
    NoRepeatsMeans(nodes);
    if nodes[i] in RepliesOf(replicas, nodes, heard, |nodes|) {
      var j := ReplyCame(replicas, nodes, heard, |nodes|, nodes[i]);
    } else if Replied(replicas, nodes, heard, i) {
      ReplyKept(replicas, nodes, heard, |nodes|, i);
    }
  }

  lemma RepliesAreMembers(replicas: map<Node, Copy>, nodes: seq<Node>, heard: seq<bool>)
    requires |nodes| <= |heard|
    ensures RepliesOf(replicas, nodes, heard, |nodes|).Keys <= Members(nodes)
  {
    forall n | n in RepliesOf(replicas, nodes, heard, |nodes|)
      ensures n in nodes
    {
      var i := ReplyCame(replicas, nodes, heard, |nodes|, n);
    }
  }

  /** Enough replies for a level: from all replicas, from some replica, or a read quorum of them. */
  lemma RepliesByLevel(c: Config, replicas: map<Node, Copy>, nodes: seq<Node>, heard: seq<bool>)
    requires NoRepeats(nodes) && |nodes| <= |heard|
    ensures var replies := RepliesOf(replicas, nodes, heard, |nodes|);
            && (|nodes| == c.replicationFactor ==>
                  (ReadNeeds(c, LevelAll) <= |replies| <==> forall i :: 0 <= i < |nodes| ==> Replied(replicas, nodes, heard, i)))
            && (ReadNeeds(c, LevelOne) <= |replies| <==> exists i :: 0 <= i < |nodes| && Replied(replicas, nodes, heard, i))
            && (ReadNeeds(c, LevelQuorum) <= |replies| <==> c.readQuorum <= |replies|)
  {
    var replies := RepliesOf(replicas, nodes, heard, |nodes|);
    forall i | 0 <= i < |nodes|
      ensures nodes[i] in replies.Keys <==> Replied(replicas, nodes, heard, i)
    {
      RepliedExactly(replicas, nodes, heard, i);
    }
    assert |replies| == |replies.Keys|;
    RepliesAreMembers(replicas, nodes, heard);
    AllOrSome(nodes, replies.Keys);
  }

  // -------------------------------------------------------------------- repair

  /** The replicas after a repair visited the first `k` nodes. */
  function Repaired(replicas: map<Node, Copy>, r: Repair, nodes: seq<Node>, delivered: seq<bool>, k: nat): map<Node, Copy>
    requires k <= |nodes| <= |delivered|
  {
    if k == 0 then replicas
    else RepairWrite(Repaired(replicas, r, nodes, delivered, k - 1), r, nodes[k - 1], delivered[k - 1])
  }

  /** What a repair leaves at a node it visits. */
  predicate Mended(before: map<Node, Copy>, after: map<Node, Copy>, r: Repair, n: Node, delivered: bool) {
    if n != r.coordinator && !delivered then Untouched(before, after, n)
    else if n != r.coordinator || n !in before || before[n].timestamp <= r.latest.timestamp then n in after && after[n] == r.latest
    else Untouched(before, after, n)
  }

  predicate Untouched(before: map<Node, Copy>, after: map<Node, Copy>, n: Node) {
    (n in after <==> n in before) && (n in before ==> after[n] == before[n])
  }

  /**
   * After a repair every other node it reached holds exactly the latest copy; the coordinator does too,
   * unless its own copy is newer, which it keeps; nodes it did not reach or did not list are untouched.
   */
  lemma {:induction false} RepairMends(replicas: map<Node, Copy>, r: Repair, nodes: seq<Node>, delivered: seq<bool>, k: nat)
    requires k <= |nodes| <= |delivered| && NoRepeats(nodes)
    ensures var after := Repaired(replicas, r, nodes, delivered, k);
            && (forall i :: 0 <= i < k ==> Mended(replicas, after, r, nodes[i], delivered[i]))
            && (forall n :: n !in nodes[..k] ==> Untouched(replicas, after, n))
  {
    if k == 0 {
    } else {
      RepairMends(replicas, r, nodes, delivered, k - 1);
      NoRepeatsMeans(nodes);
      assert nodes[..k] == nodes[..k - 1] + [nodes[k - 1]];
      var before := Repaired(replicas, r, nodes, delivered, k - 1);
      assert Untouched(replicas, before, nodes[k - 1]);
      assert Mended(before, RepairWrite(before, r, nodes[k - 1], delivered[k - 1]), r, nodes[k - 1], delivered[k - 1]);
    }
  }

  /** So a repair that reaches all nodes, none of which holds anything newer, makes them agree. */
  lemma RepairConverges(replicas: map<Node, Copy>, r: Repair, nodes: seq<Node>, delivered: seq<bool>)
    requires |nodes| <= |delivered| && NoRepeats(nodes) && forall i :: 0 <= i < |nodes| ==> delivered[i]
    requires forall n :: n in nodes && n in replicas ==> replicas[n].timestamp <= r.latest.timestamp
    ensures var after := Repaired(replicas, r, nodes, delivered, |nodes|);
            forall n :: n in nodes ==> n in after && after[n] == r.latest
  {
    RepairMends(replicas, r, nodes, delivered, |nodes|);
    var after := Repaired(replicas, r, nodes, delivered, |nodes|);
    forall n | n in nodes
      ensures n in after && after[n] == r.latest
    {
      var i :| 0 <= i < |nodes| && nodes[i] == n;
      assert Mended(replicas, after, r, nodes[i], delivered[i]);
    }
  }

  /** The state in which repair `i` has visited the first `k` nodes of the list. */
  function RepairedState(s: State, i: nat, nodes: seq<Node>, delivered: seq<bool>, k: nat): State
    requires i < |s.repairs| && k <= |nodes| <= |delivered|
  {
    s.(replicas := Repaired(s.replicas, s.repairs[i], nodes, delivered, k),
       repairs := if k == |nodes| then WithoutRepair(s.repairs, i) else s.repairs[i := s.repairs[i].(rest := nodes[k..])])
  }

  /** A whole read repair is a series of steps. */
  lemma {:induction false} RepairReaches(c: Config, nodes: seq<Node>, puts: set<Level>, gets: set<Level>,
                                         s: State, i: nat, delivered: seq<bool>, k: nat)
    requires nodes != [] && k <= |nodes| <= |delivered|
    requires Reachable(c, nodes, puts, gets, s) && !s.phase.Writing?
    requires i < |s.repairs| && s.repairs[i].rest == nodes
    ensures Reachable(c, nodes, puts, gets, RepairedState(s, i, nodes, delivered, k))
  {
    if k == 0 {
      assert nodes[0..] == nodes;
      assert RepairedState(s, i, nodes, delivered, 0) == s;
    } else {
      RepairReaches(c, nodes, puts, gets, s, i, delivered, k - 1);
      var t := RepairedState(s, i, nodes, delivered, k - 1);
      assert t.repairs[i].rest == nodes[k - 1..];
      StepReachable(c, nodes, puts, gets, t, RepairNext(i, delivered[k - 1]));
      assert nodes[k - 1..][1..] == nodes[k..] && nodes[k - 1..][0] == nodes[k - 1];
      assert RepairWrite(t.replicas, t.repairs[i], nodes[k - 1], delivered[k - 1]) ==
             RepairWrite(t.replicas, s.repairs[i], nodes[k - 1], delivered[k - 1]);
      assert Step(c, nodes, t, RepairNext(i, delivered[k - 1])).0 == RepairedState(s, i, nodes, delivered, k);
    }
  }

  /** A successful Get and the repair it starts, one after the other, are a series of steps. */
  lemma GetThenRepair(c: Config, nodes: seq<Node>, puts: set<Level>, gets: set<Level>,
                      s: State, heard: seq<bool>, coordinator: Node, level: Level, latest: Copy, delivered: seq<bool>)
    requires NoRepeats(nodes) && |nodes| <= |heard| && |nodes| <= |delivered| && level in gets
    requires Reachable(c, nodes, puts, gets, s) && s.phase.Idle?
    requires var replies := RepliesOf(s.replicas, nodes, heard, |nodes|); ReadNeeds(c, level) <= |replies| && IsLatest(replies, latest)
    ensures Reachable(c, nodes, puts, gets,
                      s.(replicas := Repaired(s.replicas, Repair(coordinator, latest, nodes), nodes, delivered, |nodes|)))
  {
    GetReaches(c, nodes, puts, gets, s, heard, coordinator, level);
    var replies := RepliesOf(s.replicas, nodes, heard, |nodes|);
    var t := s.(phase := Reading(coordinator, ReadNeeds(c, level), replies));
    StepReachable(c, nodes, puts, gets, t, EndGet(latest));
    var u := s.(repairs := s.repairs + [Repair(coordinator, latest, nodes)]);
    assert Step(c, nodes, t, EndGet(latest)).0 == u;
    RepairReaches(c, nodes, puts, gets, u, |s.repairs|, delivered, |nodes|);
    assert WithoutRepair(u.repairs, |s.repairs|) == s.repairs;
  }

  // ----------------------------------------------------------------- the object

  function ReplicasOf(stores: map<string, map<Node, Copy>>, key: string): map<Node, Copy> {
    if key in stores then stores[key] else map[]
  }

  /** The results of the first `i` requests. */
  ghost predicate ResultsOf(results: map<Node, bool>, nodes: seq<Node>, fates: seq<Fate>, i: nat)
    requires i <= |nodes| <= |fates|
  {
    results.Keys == Members(nodes[..i]) && forall n :: n in results ==> (results[n] <==> n in AckedBy(nodes, fates, i))
  }

  lemma AllResults(results: map<Node, bool>, nodes: seq<Node>, fates: seq<Fate>)
    requires |nodes| <= |fates| && ResultsOf(results, nodes, fates, |nodes|)
    ensures results.Keys == Members(nodes) && forall n :: n in results ==> (results[n] <==> n in AckedBy(nodes, fates, |nodes|))
  {
    assert nodes[..|nodes|] == nodes;
  }

  lemma ResultsNext(results: map<Node, bool>, nodes: seq<Node>, fates: seq<Fate>, i: nat)
    requires i < |nodes| <= |fates| && NoRepeats(nodes) && ResultsOf(results, nodes, fates, i)
    ensures ResultsOf(results[nodes[i] := fates[i].AppliedAndAcked?], nodes, fates, i + 1)
  {
    NextIsNew(nodes, i);
    AckedAreMembers(nodes, fates, i);
  }

  class Coordinator {
    const config: Config
    const nodeID: Node
    const ring: H.HashRing
    /** For each key, the copies held by the nodes' stores. */
    var stores: map<string, map<Node, Copy>>

    constructor (config: Config, nodeID: Node, ring: H.HashRing)
      ensures this.config == config && this.nodeID == nodeID && this.ring == ring && stores == map[]
    {
      this.config, this.nodeID, this.ring := config, nodeID, ring;
      stores := map[];
    }

    /** One request: it may be lost, applied, or applied and acknowledged. */
    method SendTo(key: string, node: Node, copy: Copy, fate: Fate) returns (success: bool)
      requires key in stores
      modifies this
      ensures stores == if fate.Lost? then old(stores) else old(stores)[key := Write(old(stores)[key], node, copy)]
      ensures success <==> fate.AppliedAndAcked?
    {
      if !fate.Lost? {
        stores := stores[key := Write(stores[key], node, copy)];
      }
      success := fate.AppliedAndAcked?;
    }

    /** Sends the copy to every node; a result is true for an acknowledged write. */
    method ReplicateToNodes(key: string, nodes: seq<Node>, copy: Copy, fates: seq<Fate>) returns (results: map<Node, bool>)
      requires NoRepeats(nodes) && |nodes| <= |fates|
      modifies this
      ensures stores == old(stores)[key := Delivered(ReplicasOf(old(stores), key), nodes, fates, copy, |nodes|)]
      ensures results.Keys == Members(nodes)
      ensures forall n :: n in results ==> (results[n] <==> n in AckedBy(nodes, fates, |nodes|))
    {
      results := map[];
      ghost var before := ReplicasOf(stores, key);
      stores := stores[key := ReplicasOf(stores, key)];
      for i := 0 to |nodes|
        invariant stores == old(stores)[key := Delivered(before, nodes, fates, copy, i)]
        invariant ResultsOf(results, nodes, fates, i)
      {
        var success := SendTo(key, nodes[i], copy, fates[i]);
        ResultsNext(results, nodes, fates, i);
        results := results[nodes[i] := success];
      }
      AllResults(results, nodes, fates);
    }

    method CountSuccesses(results: map<Node, bool>) returns (count: nat)
      ensures count == |set n | n in results && results[n]|
    {
      count := 0;
      var rest := results.Keys;
      while rest != {}
        invariant rest <= results.Keys
        invariant count == |set n | n in results && n !in rest && results[n]|
      {
        var n :| n in rest;
        ghost var counted := set m | m in results && m !in rest && results[m];
        rest := rest - {n};
        ghost var now := set m | m in results && m !in rest && results[m];
        assert now == if results[n] then counted + {n} else counted;
        if results[n] {
          count := count + 1;
        }
      }
      assert (set n | n in results && results[n]) == set n | n in results && n !in rest && results[n];
    }

    /** A put succeeds exactly when enough replicas acknowledged it; whatever was delivered stays. */
    method Put(key: string, value: Bytes, timestamp: int64, level: Level, fates: seq<Fate>) returns (r: PutResult)
      requires ring.Valid() && config.replicationFactor <= |fates|
      modifies this
      ensures ring.vnodes == [] ==> r == NoRing && stores == old(stores)
      ensures ring.vnodes != [] && config.replicationFactor < 0 ==> r == PutPanic && stores == old(stores)
      ensures ring.vnodes != [] && config.replicationFactor >= 0 ==>
                var nodes := Preference(ring.vnodes, ring.hash(key), config.replicationFactor);
                var acks := |AckedBy(nodes, fates, |nodes|)|;
                && stores == old(stores)[key := Delivered(ReplicasOf(old(stores), key), nodes, fates, Copy(value, timestamp), |nodes|)]
                && r == (if acks < WriteNeeds(config, level) then QuorumNotMet(acks, WriteNeeds(config, level)) else PutOk)
                && (level == LevelAll && |nodes| == config.replicationFactor ==> (r == PutOk <==> forall i :: 0 <= i < |nodes| ==> fates[i].AppliedAndAcked?))
                && (level == LevelOne ==> (r == PutOk <==> exists i :: 0 <= i < |nodes| && fates[i].AppliedAndAcked?))
                && (level == LevelQuorum ==> (r == PutOk <==> config.writeQuorum <= acks))
    {
      var preference := ring.GetNodes(key, config.replicationFactor);
      if preference.EmptyRing? {
        return NoRing;
      }
      if preference.NegativeLength? {
        return PutPanic;
      }
      var nodes := preference.nodes;
      PreferenceShape(ring.vnodes, ring.hash(key), config.replicationFactor, config.replicationFactor);
      var results := ReplicateToNodes(key, nodes, Copy(value, timestamp), fates);
      var successCount := CountSuccesses(results);
      SuccessesAreAcks(results, nodes, fates);
      AcksByLevel(config, nodes, fates);
      if successCount < WriteNeeds(config, level) {
        return QuorumNotMet(successCount, WriteNeeds(config, level));
      }
      return PutOk;
    }

    /** The replies, one slot per node. */
    method ReadFromNodes(key: string, nodes: seq<Node>, heard: seq<bool>) returns (copies: seq<Copy>)
      requires |nodes| <= |heard|
      ensures copies == HeardCopies(ReplicasOf(stores, key), nodes, heard, |nodes|)
    {
      copies := [];
      var replicas := ReplicasOf(stores, key);
      for i := 0 to |nodes|
        invariant copies == HeardCopies(replicas, nodes, heard, i)
      {
        if heard[i] && nodes[i] in replicas {
          copies := copies + [replicas[nodes[i]]];
        }
      }
    }

    /** A get answers with a latest reply when enough nodes replied, and indexes an empty list when none had to. */
    method Get(key: string, level: Level, heard: seq<bool>) returns (r: GetResult)
      requires ring.Valid() && config.replicationFactor <= |heard|
      ensures ring.vnodes == [] ==> r == NoPreference
      ensures ring.vnodes != [] && config.replicationFactor < 0 ==> r == GetPanic
      ensures ring.vnodes != [] && config.replicationFactor >= 0 ==>
                var nodes := Preference(ring.vnodes, ring.hash(key), config.replicationFactor);
                |nodes| <= |heard| &&
                var replies := RepliesOf(ReplicasOf(stores, key), nodes, heard, |nodes|);
                && (if |replies| < ReadNeeds(config, level) then r == KeyNotFound
                    else if |replies| == 0 then r == GetPanic
                    else r.GetOk? && IsLatest(replies, r.copy))
                && (level == LevelAll && 0 < |nodes| == config.replicationFactor ==>
                      (r.GetOk? <==> forall i :: 0 <= i < |nodes| ==> Replied(ReplicasOf(stores, key), nodes, heard, i)))
                && (level == LevelOne ==> (r.GetOk? <==> exists i :: 0 <= i < |nodes| && Replied(ReplicasOf(stores, key), nodes, heard, i)))
                && (level == LevelQuorum ==> (r == KeyNotFound <==> |replies| < config.readQuorum))
    {
      var preference := ring.GetNodes(key, config.replicationFactor);
      if preference.EmptyRing? {
        return NoPreference;
      }
      if preference.NegativeLength? {
        return GetPanic;
      }
      var nodes := preference.nodes;
      PreferenceShape(ring.vnodes, ring.hash(key), config.replicationFactor, config.replicationFactor);
      var copies := ReadFromNodes(key, nodes, heard);
      HeardAreReplies(ReplicasOf(stores, key), nodes, heard, |nodes|);
      RepliesByLevel(config, ReplicasOf(stores, key), nodes, heard);
      if |copies| < ReadNeeds(config, level) {
        return KeyNotFound;
      }
      var sorted := SortNewestFirst(copies);
      assert |sorted| == |multiset(sorted)| == |multiset(copies)| == |copies|;
      if |sorted| == 0 {
        return GetPanic;
      }
      HeadIsLatest(ReplicasOf(stores, key), nodes, heard, sorted);
      return GetOk(sorted[0]);
    }

    /** Visits the nodes in order: looks before writing locally, writes unconditionally to the others. */
    method ReadRepair(key: string, nodes: seq<Node>, latest: Copy, delivered: seq<bool>)
      requires |nodes| <= |delivered|
      modifies this
      ensures stores == old(stores)[key := Repaired(ReplicasOf(old(stores), key), Repair(nodeID, latest, nodes), nodes, delivered, |nodes|)]
      ensures NoRepeats(nodes) ==>
                forall i :: 0 <= i < |nodes| ==>
                  Mended(ReplicasOf(old(stores), key), stores[key], Repair(nodeID, latest, nodes), nodes[i], delivered[i])
    {
      ghost var before := ReplicasOf(stores, key);
      stores := stores[key := ReplicasOf(stores, key)];
      for i := 0 to |nodes|
        invariant stores == old(stores)[key := Repaired(before, Repair(nodeID, latest, nodes), nodes, delivered, i)]
      {
        var replicas := stores[key];
        var n := nodes[i];
        if n == nodeID {
          if n !in replicas || replicas[n].timestamp < latest.timestamp {
            stores := stores[key := Write(replicas, n, latest)];
          } else if replicas[n].timestamp == latest.timestamp && replicas[n].value != latest.value {
            stores := stores[key := Write(replicas, n, latest)];
          }
        } else if delivered[i] {
          stores := stores[key := Write(replicas, n, latest)];
        }
      }
      if NoRepeats(nodes) { RepairMends(before, Repair(nodeID, latest, nodes), nodes, delivered, |nodes|); }
    }
  }

  lemma SuccessesAreAcks(results: map<Node, bool>, nodes: seq<Node>, fates: seq<Fate>)
    requires |nodes| <= |fates| && results.Keys == Members(nodes)
    requires forall n :: n in results ==> (results[n] <==> n in AckedBy(nodes, fates, |nodes|))
    ensures (set n | n in results && results[n]) == AckedBy(nodes, fates, |nodes|)
  {
    AckedAreMembers(nodes, fates, |nodes|);
    assert nodes[..|nodes|] == nodes;
  }

  lemma {:induction false} AckedAreMembers(nodes: seq<Node>, fates: seq<Fate>, k: nat)
    requires k <= |nodes| <= |fates|
    ensures AckedBy(nodes, fates, k) <= Members(nodes[..k])
  {
    if k == 0 {
    } else {
      AckedAreMembers(nodes, fates, k - 1);
      assert nodes[..k] == nodes[..k - 1] + [nodes[k - 1]];
    }
  }
}
