/** When exactly a Get that every listed node answers finds the keys that were acknowledged. */
module Availability {
  import opened Quorum
  import opened Sequences
  import opened Types

  /** The listed nodes that hold any copy. */
  ghost function Holders(nodes: seq<Node>, s: State): set<Node> { set n | n in nodes && n in s.replicas }

  /** As many listed nodes hold a copy as the newest acknowledged Put needed. */
  ghost predicate EnoughHold(nodes: seq<Node>, s: State) {
    && (s.acked.Newest? ==> s.acked.needed <= |Holders(nodes, s)|)
    && (s.phase.Writing? ==> s.phase.acks <= s.phase.applied <= Holders(nodes, s))
  }

  lemma StepKeepsHolders(c: Config, nodes: seq<Node>, s: State, a: Action)
    requires EnoughHold(nodes, s) && Enabled(nodes, s, a)
    ensures EnoughHold(nodes, Step(c, nodes, s, a).0)
  {
    var s' := Step(c, nodes, s, a).0;
    assert s.replicas.Keys <= s'.replicas.Keys;
    SubsetSize(Holders(nodes, s), Holders(nodes, s'));
    if a.EndPut? { SubsetSize(s.phase.acks, Holders(nodes, s)); }
  }

  lemma {:induction false} RunKeepsHolders(c: Config, nodes: seq<Node>, run: seq<Action>)
    requires IsRun(c, nodes, run)
    ensures EnoughHold(nodes, StateAfter(c, nodes, run))
  {
    if run == [] {
    } else {
      RunKeepsHolders(c, nodes, run[..|run| - 1]);
      StepKeepsHolders(c, nodes, StateAfter(c, nodes, run[..|run| - 1]), run[|run| - 1]);
    }
  }

  /** Every listed node that holds a copy has answered the Get; one without a copy counts as no answer. */
  predicate AllAnswered(nodes: seq<Node>, s: State) {
    s.phase.Reading? && forall n :: n in nodes && n in s.replicas ==> n in s.phase.replies
  }

  /** In no reachable state does a Get that all nodes answered miss an acknowledged key. */
  ghost predicate AcknowledgedAreFound(c: Config, nodes: seq<Node>, put: Level, get: Level) {
    forall s :: Reachable(c, nodes, {put}, {get}, s) && s.acked.Newest? && AllAnswered(nodes, s) ==> s.phase.needed <= |s.phase.replies|
  }

  /** The Put's requirement can be met, and the Get asks for more answers than the Put for acknowledgements. */
  predicate AsksForMore(c: Config, nodes: seq<Node>, put: Level, get: Level) {
    WriteNeeds(c, put) <= |nodes| && WriteNeeds(c, put) < ReadNeeds(c, get)
  }

  lemma AnsweredIsFound(c: Config, nodes: seq<Node>, put: Level, get: Level, s: State)
    requires Reachable(c, nodes, {put}, {get}, s) && s.acked.Newest? && AllAnswered(nodes, s) && !AsksForMore(c, nodes, put, get)
    ensures s.phase.needed <= |s.phase.replies|
  {
    var run :| RunsTo(c, nodes, {put}, {get}, run, s);
    RunHoldsLevels(c, nodes, run, put, get);
    RunKeepsHolders(c, nodes, run);
    SubsetSize(Holders(nodes, s), s.phase.replies.Keys);
    assert |s.phase.replies| == |s.phase.replies.Keys|;
    SubsetSize(Holders(nodes, s), Members(nodes));
    MembersSize(nodes);
  }

  /** A first Put that reaches only the nodes it needs. */
  function PutOnFirst(c: Config, nodes: seq<Node>, put: Level, w: nat): State {
    AfterPut(c, nodes, START, FirstFates(|nodes|, w), Copy([], 1), put)
  }

  lemma FewHold(c: Config, nodes: seq<Node>, put: Level, w: nat)
    requires w <= |nodes| && NoRepeats(nodes) && w == WriteNeeds(c, put)
    ensures PutOnFirst(c, nodes, put, w).acked.Newest?
    ensures |Holders(nodes, PutOnFirst(c, nodes, put, w))| <= w
  {
    EnoughAcks(nodes, w);
    forall i | 0 <= i < |nodes|
      ensures nodes[i] in PutOnFirst(c, nodes, put, w).replicas ==> i < w
    {
      FirstDelivered(map[], nodes, Copy([], 1), w, |nodes|, i);
    }
    forall n | n in Holders(nodes, PutOnFirst(c, nodes, put, w))
      ensures n in Members(nodes[..w])
    {
      var i :| 0 <= i < |nodes| && nodes[i] == n;
      assert nodes[..w][i] == n;
    }
    SubsetSize(Holders(nodes, PutOnFirst(c, nodes, put, w)), Members(nodes[..w]));
    MembersSize(nodes[..w]);
  }

  predicate AllHeard(nodes: seq<Node>, heard: seq<bool>) { |nodes| <= |heard| && forall i :: 0 <= i < |nodes| ==> heard[i] }

  /** The state in which a Get has heard from every node. */
  function AskedAll(c: Config, nodes: seq<Node>, s: State, heard: seq<bool>, coordinator: Node, get: Level): State
    requires AllHeard(nodes, heard)
  {
    s.(phase := Reading(coordinator, ReadNeeds(c, get), RepliesOf(s.replicas, nodes, heard, |nodes|)))
  }

  lemma AskedAllAnswered(c: Config, nodes: seq<Node>, s: State, heard: seq<bool>, coordinator: Node, get: Level)
    requires AllHeard(nodes, heard)
    ensures AllAnswered(nodes, AskedAll(c, nodes, s, heard, coordinator, get))
    ensures RepliesOf(s.replicas, nodes, heard, |nodes|).Keys == Holders(nodes, s)
  {
    var replies := RepliesOf(s.replicas, nodes, heard, |nodes|);
    forall n | n in nodes && n in s.replicas
      ensures n in replies
    {
      var i :| 0 <= i < |nodes| && nodes[i] == n;
      ReplyKept(s.replicas, nodes, heard, |nodes|, i);
    }
    forall n | n in replies
      ensures n in nodes && n in s.replicas
    {
      var i := ReplyCame(s.replicas, nodes, heard, |nodes|, n);
    }
  }

  lemma MissReachable(c: Config, nodes: seq<Node>, put: Level, get: Level)
    requires ValidConfig(c) && NoRepeats(nodes) && AsksForMore(c, nodes, put, get)
    ensures !AcknowledgedAreFound(c, nodes, put, get)
  {
    var w := WriteNeeds(c, put);
    var s := PutOnFirst(c, nodes, put, w);
    StartReachable(c, nodes, {put}, {get});
    PutReaches(c, nodes, {put}, {get}, START, FirstFates(|nodes|, w), Copy([], 1), put);
    FewHold(c, nodes, put, w);
    var heard := seq(|nodes|, i => true);
    GetReaches(c, nodes, {put}, {get}, s, heard, nodes[0], get);
    var t := AskedAll(c, nodes, s, heard, nodes[0], get);
    AskedAllAnswered(c, nodes, s, heard, nodes[0], get);
    assert |t.phase.replies| == |t.phase.replies.Keys|;
  }

  /**
   * A Get that every listed node answers finds all acknowledged keys exactly when it asks for no
   * more answers than a Put for acknowledgements, or no Put can be acknowledged at all. Late
   * writes and repairs make no difference.
   */
  lemma FoundExactly(c: Config, nodes: seq<Node>, put: Level, get: Level)
    requires ValidConfig(c) && NoRepeats(nodes)
    ensures AcknowledgedAreFound(c, nodes, put, get) <==> ReadNeeds(c, get) <= WriteNeeds(c, put) || WriteNeeds(c, put) > |nodes|
  {
    if AsksForMore(c, nodes, put, get) {
      MissReachable(c, nodes, put, get);
    } else {
      forall s | Reachable(c, nodes, {put}, {get}, s) && s.acked.Newest? && AllAnswered(nodes, s)
        ensures s.phase.needed <= |s.phase.replies|
      {
        AnsweredIsFound(c, nodes, put, get, s);
      }
    }
  }

  /** A Put at level one, then a quorum Get that all of three nodes answer, misses the key. */
  lemma PutAtOneIsMissed(nodes: seq<Node>)
    requires NoRepeats(nodes) && |nodes| == 3
    ensures !AcknowledgedAreFound(Config(3, 2, 2), nodes, LevelOne, LevelQuorum)
    ensures AcknowledgedAreFound(Config(3, 2, 2), nodes, LevelQuorum, LevelQuorum)
  {
    FoundExactly(Config(3, 2, 2), nodes, LevelOne, LevelQuorum);
    FoundExactly(Config(3, 2, 2), nodes, LevelQuorum, LevelQuorum);
  }
}
