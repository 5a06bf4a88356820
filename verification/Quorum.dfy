/**
 * One key replicated on a fixed preference list: replica writes, acknowledgements, replica reads
 * and read repairs as steps, and the freshness of what reads return.
 */
module Quorum {
  import opened Codec
  import opened Sequences
  import opened Types

  /** A stored copy of the key; a node without one is absent from the replica map. */
  datatype Copy = Copy(value: Bytes, timestamp: int64)

  datatype Level = LevelOne | LevelAll | LevelQuorum

  datatype Config = Config(replicationFactor: int, writeQuorum: int, readQuorum: int)

  predicate ValidConfig(c: Config) {
    && 1 <= c.replicationFactor
    && 1 <= c.readQuorum <= c.replicationFactor
    && 1 <= c.writeQuorum <= c.replicationFactor
  }

  function WriteNeeds(c: Config, level: Level): int {
    match level
    case LevelOne => 1
    case LevelAll => c.replicationFactor
    case LevelQuorum => c.writeQuorum
  }

  function ReadNeeds(c: Config, level: Level): int {
    match level
    case LevelOne => 1
    case LevelAll => c.replicationFactor
    case LevelQuorum => c.readQuorum
  }

  // --------------------------------------------------------------------- states

  datatype Phase =
    | Idle
    | Writing(copy: Copy, needed: int, applied: set<Node>, acks: set<Node>)
    | Reading(coordinator: Node, needed: int, replies: map<Node, Copy>)

  /** A read repair in progress: the nodes it has still to visit. */
  datatype Repair = Repair(coordinator: Node, latest: Copy, rest: seq<Node>)

  /** The newest acknowledged Put and how many acknowledgements it needed. */
  datatype Acked = NothingAcked | Newest(timestamp: int64, needed: int)

  /** All that was put is kept, and how many writes were delivered after their operation. */
  datatype State = State(replicas: map<Node, Copy>, phase: Phase, repairs: seq<Repair>, puts: seq<Copy>, acked: Acked, late: nat)

  const START := State(map[], Idle, [], [], NothingAcked, 0)

  datatype Outcome = Nothing | Acknowledged | NotEnoughAcks | ReadCopy(copy: Copy) | NotFound | IndexPanic

  datatype Action =
    | StartPut(value: Bytes, timestamp: int64, level: Level)
    | Apply(node: Node)
    | Ack(node: Node)
    | EndPut
    | StartGet(coordinator: Node, level: Level)
    | Reply(node: Node)
    | EndGet(latest: Copy)
    | RepairNext(index: nat, delivered: bool)
    | Late(node: Node, copy: Copy)

  /** A replica overwrites what it holds, whatever the timestamps. */
  function Write(replicas: map<Node, Copy>, n: Node, c: Copy): map<Node, Copy> { replicas[n := c] }

  /** A local repair looks before it writes; a remote one, when delivered, does not. */
  function RepairWrite(replicas: map<Node, Copy>, r: Repair, n: Node, delivered: bool): map<Node, Copy> {
    if n == r.coordinator then
      if n !in replicas || replicas[n].timestamp < r.latest.timestamp then Write(replicas, n, r.latest)
      else if replicas[n].timestamp == r.latest.timestamp && replicas[n].value != r.latest.value then Write(replicas, n, r.latest)
      else replicas
    else if delivered then Write(replicas, n, r.latest)
    else replicas
  }

  /** One of the replies with the greatest timestamp, which is what sorting puts first. */
  predicate IsLatest(replies: map<Node, Copy>, c: Copy) {
    && (exists n :: n in replies && replies[n] == c)
    && (forall n :: n in replies ==> replies[n].timestamp <= c.timestamp)
  }

  /**
   * The steps of a system in which puts carry increasing timestamps and operations do not overlap.
   * A late write is the delivery of any copy ever put when its own operation is over: a request of
   * an ended Put, or of a repair that a newer Put overtook.
   */
  predicate Enabled(nodes: seq<Node>, s: State, a: Action) {
    match a
    case StartPut(_, t, _) => s.phase.Idle? && forall i :: 0 <= i < |s.puts| ==> s.puts[i].timestamp < t
    case Apply(n) => s.phase.Writing? && n in nodes
    case Ack(n) => s.phase.Writing? && n in s.phase.applied
    case EndPut => s.phase.Writing?
    case StartGet(_, _) => s.phase.Idle?
    case Reply(n) => s.phase.Reading? && n in nodes && n in s.replicas && n !in s.phase.replies
    case EndGet(c) => s.phase.Reading? && (0 < |s.phase.replies| && s.phase.needed <= |s.phase.replies| ==> IsLatest(s.phase.replies, c))
    case RepairNext(i, _) => !s.phase.Writing? && i < |s.repairs| && s.repairs[i].rest != []
    case Late(n, c) => n in nodes && c in s.puts
  }

  function WithoutRepair(repairs: seq<Repair>, i: nat): seq<Repair>
    requires i < |repairs|
  {
    repairs[..i] + repairs[i + 1..]
  }

  /** The repairs when repair `i` has only `rest` left to visit. */
  function Advanced(repairs: seq<Repair>, i: nat, rest: seq<Node>): seq<Repair>
    requires i < |repairs|
  {
    if rest == [] then WithoutRepair(repairs, i) else repairs[i := repairs[i].(rest := rest)]
  }

  function Step(c: Config, nodes: seq<Node>, s: State, a: Action): (State, Outcome)
    requires Enabled(nodes, s, a)
  {
    match a
    case StartPut(v, t, level) =>
      (s.(phase := Writing(Copy(v, t), WriteNeeds(c, level), {}, {}), puts := s.puts + [Copy(v, t)], repairs := []), Nothing)
    case Apply(n) =>
      (s.(replicas := Write(s.replicas, n, s.phase.copy), phase := s.phase.(applied := s.phase.applied + {n})), Nothing)
    case Ack(n) => (s.(phase := s.phase.(acks := s.phase.acks + {n})), Nothing)
    case EndPut =>
      if |s.phase.acks| < s.phase.needed then (s.(phase := Idle), NotEnoughAcks)
      else (s.(phase := Idle, acked := Newest(s.phase.copy.timestamp, s.phase.needed)), Acknowledged)
    case StartGet(coordinator, level) => (s.(phase := Reading(coordinator, ReadNeeds(c, level), map[])), Nothing)
    case Reply(n) => (s.(phase := s.phase.(replies := s.phase.replies[n := s.replicas[n]])), Nothing)
    case EndGet(latest) =>
      if |s.phase.replies| < s.phase.needed then (s.(phase := Idle), NotFound)
      else if |s.phase.replies| == 0 then (s.(phase := Idle), IndexPanic)
      else (s.(phase := Idle, repairs := s.repairs + [Repair(s.phase.coordinator, latest, nodes)]), ReadCopy(latest))
    case RepairNext(i, delivered) =>
      var r := s.repairs[i];
      var rest := r.rest[1..];
      (s.(replicas := RepairWrite(s.replicas, r, r.rest[0], delivered),
          repairs := Advanced(s.repairs, i, rest)),
       Nothing)
    case Late(n, copy) => (s.(replicas := Write(s.replicas, n, copy), late := s.late + 1), Nothing)
  }

  // ------------------------------------------------------------------ invariant

  /** The listed nodes that hold the newest acknowledged Put or something newer, and did not reply with less. */
  ghost function FreshNodes(nodes: seq<Node>, s: State): set<Node> {
    set n | n in nodes && IsFresh(s, n)
  }

  predicate IsFresh(s: State, n: Node) {
    s.acked.Newest? ==>
      && n in s.replicas && s.acked.timestamp <= s.replicas[n].timestamp
      && (s.phase.Reading? && n in s.phase.replies ==> s.acked.timestamp <= s.phase.replies[n].timestamp)
  }

  /** Every copy anywhere was put. */
  predicate OnlyPuts(s: State) {
    && (forall n :: n in s.replicas ==> s.replicas[n] in s.puts)
    && (forall i :: 0 <= i < |s.repairs| ==> s.repairs[i].latest in s.puts)
    && (s.phase.Reading? ==> forall n :: n in s.phase.replies ==> s.phase.replies[n] in s.puts)
  }

  /** The nodes the current Put was applied at that hold something older again. */
  ghost function Spoiled(s: State): set<Node>
    requires s.phase.Writing?
  {
    set n | n in s.phase.applied && !HoldsSince(s.replicas, n, s.phase.copy.timestamp)
  }

  predicate HoldsSince(replicas: map<Node, Copy>, n: Node, t: int64) { n in replicas && t <= replicas[n].timestamp }

  ghost predicate WriteInProgress(nodes: seq<Node>, s: State) {
    s.phase.Writing? ==>
      && s.repairs == []
      && s.phase.copy in s.puts
      && (s.acked.Newest? ==> s.acked.timestamp < s.phase.copy.timestamp)
      && s.phase.acks <= s.phase.applied <= Members(nodes)
      && |Spoiled(s)| <= s.late
  }

  ghost predicate Inv(nodes: seq<Node>, s: State) {
    && OnlyPuts(s)
    && WriteInProgress(nodes, s)
    && (s.phase.Reading? ==> s.phase.replies.Keys <= Members(nodes))
    && (s.acked.Newest? ==>
          && s.acked.needed <= |FreshNodes(nodes, s)| + s.late
          && s.acked.needed <= |nodes|
          && (exists i :: 0 <= i < |s.puts| && s.puts[i].timestamp == s.acked.timestamp)
          && forall i :: 0 <= i < |s.repairs| ==> s.acked.timestamp <= s.repairs[i].latest.timestamp)
  }

  /** A read that heard enough overlaps the newest acknowledged Put by more than the late writes. */
  predicate Overlaps(nodes: seq<Node>, s: State) {
    s.acked.Newest? && s.phase.Reading? && s.phase.needed <= |s.phase.replies| ==> s.acked.needed + s.phase.needed > |nodes| + s.late
  }

  /** As long as no fresh node turns stale, enough of them stay. */
  lemma FreshGrows(nodes: seq<Node>, s: State, s': State)
    requires s'.acked == s.acked
    requires forall n :: n in nodes && IsFresh(s, n) ==> IsFresh(s', n)
    ensures |FreshNodes(nodes, s)| <= |FreshNodes(nodes, s')|
  {
    SubsetSize(FreshNodes(nodes, s), FreshNodes(nodes, s'));
  }

  /** A sufficiently supported read meets a fresh node. */
  lemma ReadMeetsFresh(nodes: seq<Node>, s: State, c: Copy)
    requires Inv(nodes, s) && s.phase.Reading? && Overlaps(nodes, s)
    requires s.phase.needed <= |s.phase.replies| && IsLatest(s.phase.replies, c)
    ensures s.acked.Newest? ==> s.acked.timestamp <= c.timestamp
    ensures c in s.puts
  {
    if s.acked.Newest? {
      assert |s.phase.replies| == |s.phase.replies.Keys|;
      MembersSize(nodes);
      var n := Pigeonhole(FreshNodes(nodes, s), s.phase.replies.Keys, Members(nodes), |nodes|);
    }
  }

  lemma EndPutKeepsInv(c: Config, nodes: seq<Node>, s: State)
    requires Inv(nodes, s) && Enabled(nodes, s, EndPut)
    ensures Inv(nodes, Step(c, nodes, s, EndPut).0)
  {
    var s' := Step(c, nodes, s, EndPut).0;
    if |s.phase.acks| < s.phase.needed {
      FreshGrows(nodes, s, s');
    } else {
      AcksStayFresh(nodes, s, s');
      var i :| 0 <= i < |s.puts| && s.puts[i] == s.phase.copy;
    }
  }

  /** The nodes that acknowledged an ended Put are fresh, but for the overwritten ones. */
  lemma AcksStayFresh(nodes: seq<Node>, s: State, s': State)
    requires s.phase.Writing? && s.phase.acks <= s.phase.applied <= Members(nodes)
    requires s'.replicas == s.replicas && s'.acked.Newest? && s'.acked.timestamp == s.phase.copy.timestamp && !s'.phase.Reading?
    ensures |s.phase.acks| <= |FreshNodes(nodes, s')| + |Spoiled(s)|
    ensures |s.phase.acks| <= |nodes|
  {
    SubsetSize(s.phase.acks - Spoiled(s), FreshNodes(nodes, s'));
    assert s.phase.acks == (s.phase.acks - Spoiled(s)) + (s.phase.acks * Spoiled(s));
    SubsetSize(s.phase.acks * Spoiled(s), Spoiled(s));
    SubsetSize(s.phase.acks, Members(nodes));
    MembersSize(nodes);
  }

  /** A late write takes at most one node out of the fresh ones, and spoils at most one. */
  lemma LateCosts(nodes: seq<Node>, s: State, s': State, n: Node, copy: Copy)
    requires s' == s.(replicas := Write(s.replicas, n, copy), late := s.late + 1)
    ensures |FreshNodes(nodes, s)| <= |FreshNodes(nodes, s')| + 1
    ensures s.phase.Writing? ==> |Spoiled(s')| <= |Spoiled(s)| + 1
  {
    SubsetSize(FreshNodes(nodes, s) - {n}, FreshNodes(nodes, s'));
    if s.phase.Writing? { SubsetSize(Spoiled(s'), Spoiled(s) + {n}); }
  }

  lemma LateKeepsInv(c: Config, nodes: seq<Node>, s: State, n: Node, copy: Copy)
    requires Inv(nodes, s) && Enabled(nodes, s, Late(n, copy))
    ensures Inv(nodes, Step(c, nodes, s, Late(n, copy)).0)
  {
    LateCosts(nodes, s, Step(c, nodes, s, Late(n, copy)).0, n, copy);
  }

  lemma RepairKeepsFresh(nodes: seq<Node>, s: State, i: nat, delivered: bool, s': State)
    requires Enabled(nodes, s, RepairNext(i, delivered))
    requires s.acked.Newest? ==> s.acked.timestamp <= s.repairs[i].latest.timestamp
    requires s'.acked == s.acked && s'.phase == s.phase
    requires s'.replicas == RepairWrite(s.replicas, s.repairs[i], s.repairs[i].rest[0], delivered)
    ensures |FreshNodes(nodes, s)| <= |FreshNodes(nodes, s')|
  {
    FreshGrows(nodes, s, s');
  }

  lemma SameRepair(repairs: seq<Repair>, i: nat, rest: seq<Node>, j: nat) returns (k: nat)
    requires i < |repairs| && j < |Advanced(repairs, i, rest)|
    ensures k < |repairs| && repairs[k].latest == Advanced(repairs, i, rest)[j].latest
  {
    k := if rest == [] && i <= j then j + 1 else j;
  }

  lemma RepairKeepsInv(c: Config, nodes: seq<Node>, s: State, i: nat, delivered: bool)
    requires Inv(nodes, s) && Enabled(nodes, s, RepairNext(i, delivered))
    ensures Inv(nodes, Step(c, nodes, s, RepairNext(i, delivered)).0)
  {
    var s' := Step(c, nodes, s, RepairNext(i, delivered)).0;
    assert s.repairs[i].latest in s.puts;
    forall j | 0 <= j < |s'.repairs|
      ensures s'.repairs[j].latest in s.puts
      ensures s.acked.Newest? ==> s.acked.timestamp <= s'.repairs[j].latest.timestamp
    {
      var k := SameRepair(s.repairs, i, s.repairs[i].rest[1..], j);
    }
    RepairKeepsFresh(nodes, s, i, delivered, s');
  }

  lemma PutStepKeepsInv(c: Config, nodes: seq<Node>, s: State, a: Action)
    requires Inv(nodes, s) && Enabled(nodes, s, a) && (a.StartPut? || a.Apply? || a.Ack?)
    ensures Inv(nodes, Step(c, nodes, s, a).0)
  {
    var s' := Step(c, nodes, s, a).0;
    if a.StartPut? {
      assert forall x :: x in s.puts ==> x in s'.puts;
      if s.acked.Newest? {
        var i :| 0 <= i < |s.puts| && s.puts[i].timestamp == s.acked.timestamp;
        assert s'.puts[i] == s.puts[i];
      }
      assert s'.puts[|s.puts|] == s'.phase.copy;
      assert Spoiled(s') == {};
    } else {
      SubsetSize(Spoiled(s'), Spoiled(s));
    }
    FreshGrows(nodes, s, s');
  }

  lemma GetStepKeepsInv(c: Config, nodes: seq<Node>, s: State, a: Action)
    requires Inv(nodes, s) && Enabled(nodes, s, a) && (a.StartGet? || a.Reply? || a.EndGet?)
    requires a.EndGet? ==> Overlaps(nodes, s)
    ensures Inv(nodes, Step(c, nodes, s, a).0)
  {
    var s' := Step(c, nodes, s, a).0;
    if a.EndGet? && 0 < |s.phase.replies| && s.phase.needed <= |s.phase.replies| {
      ReadMeetsFresh(nodes, s, a.latest);
    }
    FreshGrows(nodes, s, s');
  }

  /** Every step keeps the invariant, and every successful read is at least as new as the newest acknowledged Put. */
  lemma StepKeepsInv(c: Config, nodes: seq<Node>, s: State, a: Action)
    requires Inv(nodes, s) && Enabled(nodes, s, a)
    requires a.EndGet? ==> Overlaps(nodes, s)
    ensures var (s', out) := Step(c, nodes, s, a);
            && Inv(nodes, s')
            && (out.ReadCopy? ==> out.copy in s.puts && (s.acked.Newest? ==> s.acked.timestamp <= out.copy.timestamp))
  {
    match a
    case EndPut => EndPutKeepsInv(c, nodes, s);
    case RepairNext(i, delivered) => RepairKeepsInv(c, nodes, s, i, delivered);
    case EndGet(latest) =>
      GetStepKeepsInv(c, nodes, s, a);
      if 0 < |s.phase.replies| && s.phase.needed <= |s.phase.replies| { ReadMeetsFresh(nodes, s, latest); }
    case StartGet(_, _) => GetStepKeepsInv(c, nodes, s, a);
    case Reply(_) => GetStepKeepsInv(c, nodes, s, a);
    case Late(n, copy) => LateKeepsInv(c, nodes, s, n, copy);
    case _ => PutStepKeepsInv(c, nodes, s, a);
  }

  // ----------------------------------------------------------------------- runs

  function StateAfter(c: Config, nodes: seq<Node>, run: seq<Action>): State
    requires IsRun(c, nodes, run)
    decreases |run|, 1
  {
    if run == [] then START
    else Step(c, nodes, StateAfter(c, nodes, run[..|run| - 1]), run[|run| - 1]).0
  }

  predicate IsRun(c: Config, nodes: seq<Node>, run: seq<Action>)
    decreases |run|, 0
  {
    run == [] ||
    (IsRun(c, nodes, run[..|run| - 1]) && Enabled(nodes, StateAfter(c, nodes, run[..|run| - 1]), run[|run| - 1]))
  }

  /** Every read of the run overlaps the Put it must not miss. */
  predicate AllOverlap(c: Config, nodes: seq<Node>, run: seq<Action>)
    requires IsRun(c, nodes, run)
  {
    run == [] ||
    (&& AllOverlap(c, nodes, run[..|run| - 1])
     && (run[|run| - 1].EndGet? ==> Overlaps(nodes, StateAfter(c, nodes, run[..|run| - 1]))))
  }

  /** No read of the run returned less than the newest Put acknowledged before it ended. */
  predicate AllFresh(c: Config, nodes: seq<Node>, run: seq<Action>)
    requires IsRun(c, nodes, run)
  {
    run == [] ||
    (&& AllFresh(c, nodes, run[..|run| - 1])
     && var s := StateAfter(c, nodes, run[..|run| - 1]);
        var out := Step(c, nodes, s, run[|run| - 1]).1;
        (out.ReadCopy? ==> out.copy in s.puts && (s.acked.Newest? ==> s.acked.timestamp <= out.copy.timestamp)))
  }

  /** The listed nodes whose copy is at least as new as `t`. */
  ghost function HoldersSince(nodes: seq<Node>, s: State, t: int64): set<Node> {
    set n | n in nodes && HoldsSince(s.replicas, n, t)
  }

  /**
   * Freshness over whole runs: in every reachable state as many listed replicas as the newest
   * acknowledged Put needed, less the late writes, hold it or something newer, and every successful
   * read returned something that was put and is at least as new.
   */
  lemma {:induction false} Freshness(c: Config, nodes: seq<Node>, run: seq<Action>)
    requires IsRun(c, nodes, run) && AllOverlap(c, nodes, run)
    ensures Inv(nodes, StateAfter(c, nodes, run))
    ensures var s := StateAfter(c, nodes, run);
            s.acked.Newest? ==> s.acked.needed <= |HoldersSince(nodes, s, s.acked.timestamp)| + s.late
    ensures AllFresh(c, nodes, run)
  {
    if run == [] {
    } else {
      var init := run[..|run| - 1];
      Freshness(c, nodes, init);
      StepKeepsInv(c, nodes, StateAfter(c, nodes, init), run[|run| - 1]);
    }
    var s := StateAfter(c, nodes, run);
    if s.acked.Newest? { SubsetSize(FreshNodes(nodes, s), HoldersSince(nodes, s, s.acked.timestamp)); }
  }

  // --------------------------------------------------- exactly when reads are fresh

  /** All Puts of the run use levels of one set and all Gets levels of another. */
  predicate UsesLevels(run: seq<Action>, puts: set<Level>, gets: set<Level>) {
    forall i :: 0 <= i < |run| ==> LevelIn(run[i], puts, gets)
  }

  predicate LevelIn(a: Action, puts: set<Level>, gets: set<Level>) {
    (a.StartPut? ==> a.level in puts) && (a.StartGet? ==> a.level in gets)
  }

  ghost predicate Reachable(c: Config, nodes: seq<Node>, puts: set<Level>, gets: set<Level>, s: State) {
    exists run :: RunsTo(c, nodes, puts, gets, run, s)
  }

  predicate RunsTo(c: Config, nodes: seq<Node>, puts: set<Level>, gets: set<Level>, run: seq<Action>, s: State) {
    IsRun(c, nodes, run) && UsesLevels(run, puts, gets) && StateAfter(c, nodes, run) == s
  }

  lemma StartReachable(c: Config, nodes: seq<Node>, puts: set<Level>, gets: set<Level>)
    ensures Reachable(c, nodes, puts, gets, START)
  {
    assert RunsTo(c, nodes, puts, gets, [], START);
  }

  lemma StepReachable(c: Config, nodes: seq<Node>, puts: set<Level>, gets: set<Level>, s: State, a: Action)
    requires Reachable(c, nodes, puts, gets, s) && Enabled(nodes, s, a) && LevelIn(a, puts, gets)
    ensures Reachable(c, nodes, puts, gets, Step(c, nodes, s, a).0)
  {
    var run :| RunsTo(c, nodes, puts, gets, run, s);
    assert (run + [a])[..|run|] == run;
    assert RunsTo(c, nodes, puts, gets, run + [a], Step(c, nodes, s, a).0);
  }

  /** What became of a replication request. */
  datatype Fate = Lost | AppliedOnly | AppliedAndAcked

  /** The replicas after a copy was sent to the first `k` nodes. */
  function Delivered(replicas: map<Node, Copy>, nodes: seq<Node>, fates: seq<Fate>, copy: Copy, k: nat): map<Node, Copy>
    requires k <= |nodes| <= |fates|
  {
    if k == 0 then replicas
    else
      var before := Delivered(replicas, nodes, fates, copy, k - 1);
      if fates[k - 1].Lost? then before else Write(before, nodes[k - 1], copy)
  }

  function ReachedBy(nodes: seq<Node>, fates: seq<Fate>, k: nat): set<Node>
    requires k <= |nodes| <= |fates|
  {
    if k == 0 then {}
    else if fates[k - 1].Lost? then ReachedBy(nodes, fates, k - 1)
    else ReachedBy(nodes, fates, k - 1) + {nodes[k - 1]}
  }

  function AckedBy(nodes: seq<Node>, fates: seq<Fate>, k: nat): set<Node>
    requires k <= |nodes| <= |fates|
  {
    if k == 0 then {}
    else if fates[k - 1].AppliedAndAcked? then AckedBy(nodes, fates, k - 1) + {nodes[k - 1]}
    else AckedBy(nodes, fates, k - 1)
  }

  /** The state in which the first `k` requests of a Put were dealt with. */
  function Sent(s: State, nodes: seq<Node>, fates: seq<Fate>, k: nat): State
    requires s.phase.Writing? && k <= |nodes| <= |fates|
  {
    s.(replicas := Delivered(s.replicas, nodes, fates, s.phase.copy, k),
       phase := s.phase.(applied := ReachedBy(nodes, fates, k), acks := AckedBy(nodes, fates, k)))
  }

  /** Sending a copy down the list is a series of replica writes and acknowledgements. */
  lemma {:induction false} SendingReaches(c: Config, nodes: seq<Node>, puts: set<Level>, gets: set<Level>,
                                          s: State, fates: seq<Fate>, k: nat)
    requires k <= |nodes| <= |fates|
    requires Reachable(c, nodes, puts, gets, s)
    requires s.phase.Writing? && s.phase.applied == {} && s.phase.acks == {}
    ensures Reachable(c, nodes, puts, gets, Sent(s, nodes, fates, k))
  {
    if k == 0 {
    } else {
      SendingReaches(c, nodes, puts, gets, s, fates, k - 1);
      var t, n := Sent(s, nodes, fates, k - 1), nodes[k - 1];
      if !fates[k - 1].Lost? {
        StepReachable(c, nodes, puts, gets, t, Apply(n));
        t := Step(c, nodes, t, Apply(n)).0;
      }
      if fates[k - 1].AppliedAndAcked? {
        StepReachable(c, nodes, puts, gets, t, Ack(n));
        t := Step(c, nodes, t, Ack(n)).0;
      }
      assert t == Sent(s, nodes, fates, k);
    }
  }

  /** The state after a whole Put whose requests met the given fates. */
  function AfterPut(c: Config, nodes: seq<Node>, s: State, fates: seq<Fate>, copy: Copy, level: Level): State
    requires |nodes| <= |fates|
  {
    State(Delivered(s.replicas, nodes, fates, copy, |nodes|), Idle, [], s.puts + [copy],
          if WriteNeeds(c, level) <= |AckedBy(nodes, fates, |nodes|)| then Newest(copy.timestamp, WriteNeeds(c, level)) else s.acked,
          s.late)
  }

  /** A whole Put, whatever becomes of its requests, is a series of steps. */
  lemma PutReaches(c: Config, nodes: seq<Node>, puts: set<Level>, gets: set<Level>, s: State, fates: seq<Fate>, copy: Copy, level: Level)
    requires |nodes| <= |fates| && level in puts && Reachable(c, nodes, puts, gets, s)
    requires Enabled(nodes, s, StartPut(copy.value, copy.timestamp, level))
    ensures Reachable(c, nodes, puts, gets, AfterPut(c, nodes, s, fates, copy, level))
  {
    var start := StartPut(copy.value, copy.timestamp, level);
    StepReachable(c, nodes, puts, gets, s, start);
    var t := Step(c, nodes, s, start).0;
    SendingReaches(c, nodes, puts, gets, t, fates, |nodes|);
    StepReachable(c, nodes, puts, gets, Sent(t, nodes, fates, |nodes|), EndPut);
  }

  /** What the first `k` nodes answered, for the requests that were heard. */
  function RepliesOf(replicas: map<Node, Copy>, nodes: seq<Node>, heard: seq<bool>, k: nat): map<Node, Copy>
    requires k <= |nodes| <= |heard|
  {
    if k == 0 then map[]
    else
      var before := RepliesOf(replicas, nodes, heard, k - 1);
      var n := nodes[k - 1];
      if heard[k - 1] && n in replicas then before[n := replicas[n]] else before
  }

  lemma {:induction false} ReplyCame(replicas: map<Node, Copy>, nodes: seq<Node>, heard: seq<bool>, k: nat, n: Node) returns (i: nat)
    requires k <= |nodes| <= |heard| && n in RepliesOf(replicas, nodes, heard, k)
    ensures i < k && nodes[i] == n && heard[i] && n in replicas && RepliesOf(replicas, nodes, heard, k)[n] == replicas[n]
  {
    if heard[k - 1] && nodes[k - 1] == n && n in replicas {
      i := k - 1;
    } else {
      i := ReplyCame(replicas, nodes, heard, k - 1, n);
    }
  }

  lemma {:induction false} ReplyKept(replicas: map<Node, Copy>, nodes: seq<Node>, heard: seq<bool>, k: nat, i: nat)
    requires i < k <= |nodes| <= |heard| && heard[i] && nodes[i] in replicas
    ensures nodes[i] in RepliesOf(replicas, nodes, heard, k)
  {
    if i < k - 1 { ReplyKept(replicas, nodes, heard, k - 1, i); }
  }

  /** The state in which a Get has heard from the first `k` nodes. */
  function Heard(s: State, nodes: seq<Node>, heard: seq<bool>, k: nat): State
    requires s.phase.Reading? && k <= |nodes| <= |heard|
  {
    s.(phase := s.phase.(replies := RepliesOf(s.replicas, nodes, heard, k)))
  }

  /** Collecting the answers down the list is a series of replica reads. */
  lemma {:induction false} CollectingReaches(c: Config, nodes: seq<Node>, puts: set<Level>, gets: set<Level>,
                                             s: State, heard: seq<bool>, k: nat)
    requires k <= |nodes| <= |heard| && NoRepeats(nodes)
    requires Reachable(c, nodes, puts, gets, s) && s.phase.Reading? && s.phase.replies == map[]
    ensures Reachable(c, nodes, puts, gets, Heard(s, nodes, heard, k))
  {
    if k == 0 {
    } else {
      CollectingReaches(c, nodes, puts, gets, s, heard, k - 1);
      var t, n := Heard(s, nodes, heard, k - 1), nodes[k - 1];
      if heard[k - 1] && n in s.replicas {
        if n in t.phase.replies {
          var i := ReplyCame(s.replicas, nodes, heard, k - 1, n);
          NoRepeatsMeans(nodes);
        }
        StepReachable(c, nodes, puts, gets, t, Reply(n));
      }
    }
  }

  /** A whole Get, up to the choice of its answer, is a series of steps. */
  lemma GetReaches(c: Config, nodes: seq<Node>, puts: set<Level>, gets: set<Level>, s: State, heard: seq<bool>, coordinator: Node, level: Level)
    requires |nodes| <= |heard| && NoRepeats(nodes) && level in gets
    requires Reachable(c, nodes, puts, gets, s) && s.phase.Idle?
    ensures Reachable(c, nodes, puts, gets,
                      s.(phase := Reading(coordinator, ReadNeeds(c, level), RepliesOf(s.replicas, nodes, heard, |nodes|))))
  {
    StepReachable(c, nodes, puts, gets, s, StartGet(coordinator, level));
    CollectingReaches(c, nodes, puts, gets, Step(c, nodes, s, StartGet(coordinator, level)).0, heard, |nodes|);
  }

  // a stale read is reachable whenever the requirements do not overlap

  function FirstFates(total: nat, k: nat): (fates: seq<Fate>)
    ensures |fates| == total
  {
    seq(total, i => if i < k then AppliedAndAcked else Lost)
  }

  function LastHeard(total: nat, k: nat): (heard: seq<bool>)
    ensures |heard| == total
  {
    seq(total, i => i >= k)
  }

  lemma {:induction false} FirstDelivered(replicas: map<Node, Copy>, nodes: seq<Node>, copy: Copy, w: nat, k: nat, i: nat)
    requires k <= |nodes| && i < |nodes| && NoRepeats(nodes)
    ensures var after := Delivered(replicas, nodes, FirstFates(|nodes|, w), copy, k);
            && (i < k && i < w ==> nodes[i] in after && after[nodes[i]] == copy)
            && (i >= k || i >= w ==> (nodes[i] in after <==> nodes[i] in replicas) && (nodes[i] in replicas ==> after[nodes[i]] == replicas[nodes[i]]))
  {
    NoRepeatsMeans(nodes);
    if k == 0 {
    } else {
      FirstDelivered(replicas, nodes, copy, w, k - 1, i);
    }
  }

  lemma {:induction false} FirstAcked(nodes: seq<Node>, w: nat, k: nat)
    requires k <= w && k <= |nodes|
    ensures AckedBy(nodes, FirstFates(|nodes|, w), k) == Members(nodes[..k])
  {
    if k == 0 {
    } else {
      FirstAcked(nodes, w, k - 1);
      assert nodes[..k] == nodes[..k - 1] + [nodes[k - 1]];
    }
  }

  lemma {:induction false} AckedGrows(nodes: seq<Node>, fates: seq<Fate>, j: nat, k: nat)
    requires j <= k <= |nodes| <= |fates|
    ensures AckedBy(nodes, fates, j) <= AckedBy(nodes, fates, k)
  {
    if j < k { AckedGrows(nodes, fates, j, k - 1); }
  }

  /** Sending to the first `w` nodes is acknowledged by at least `w`. */
  lemma EnoughAcks(nodes: seq<Node>, w: nat)
    requires w <= |nodes| && NoRepeats(nodes)
    ensures |AckedBy(nodes, FirstFates(|nodes|, w), |nodes|)| >= w
  {
    FirstAcked(nodes, w, w);
    AckedGrows(nodes, FirstFates(|nodes|, w), w, |nodes|);
    NoRepeatsPrefix(nodes, w);
    NoRepeatsMeans(nodes[..w]);
    SubsetSize(Members(nodes[..w]), AckedBy(nodes, FirstFates(|nodes|, w), |nodes|));
  }

  lemma LastReplies(replicas: map<Node, Copy>, nodes: seq<Node>, k: nat)
    requires k <= |nodes| && NoRepeats(nodes) && forall n :: n in nodes ==> n in replicas
    ensures |RepliesOf(replicas, nodes, LastHeard(|nodes|, k), |nodes|)| >= |nodes| - k
  {
    var replies := RepliesOf(replicas, nodes, LastHeard(|nodes|, k), |nodes|);
    forall n | n in Members(nodes[k..])
      ensures n in replies
    {
      var i :| 0 <= i < |nodes| - k && nodes[k..][i] == n;
      ReplyKept(replicas, nodes, LastHeard(|nodes|, k), |nodes|, k + i);
    }
    NoRepeatsMeans(nodes);
    NoRepeatsMeans(nodes[k..]);
    SubsetSize(Members(nodes[k..]), replies.Keys);
  }

  /** After a Put on all nodes and a second one on the first `w`, the last nodes still hold the first. */
  function TwoPuts(c: Config, nodes: seq<Node>, put: Level, w: nat): State {
    var one := AfterPut(c, nodes, START, FirstFates(|nodes|, |nodes|), Copy([], 1), put);
    AfterPut(c, nodes, one, FirstFates(|nodes|, w), Copy([], 2), put)
  }

  lemma TwoPutsReachable(c: Config, nodes: seq<Node>, put: Level, get: Level, w: nat)
    requires w <= |nodes| && NoRepeats(nodes) && w == WriteNeeds(c, put)
    ensures Reachable(c, nodes, {put}, {get}, TwoPuts(c, nodes, put, w))
    ensures TwoPuts(c, nodes, put, w).acked == Newest(2, w)
    ensures TwoPuts(c, nodes, put, w).phase.Idle? && TwoPuts(c, nodes, put, w).late == 0
    ensures Copy([], 1) in TwoPuts(c, nodes, put, w).puts
    ensures forall i :: 0 <= i < |nodes| ==>
              && nodes[i] in TwoPuts(c, nodes, put, w).replicas
              && (w <= i ==> TwoPuts(c, nodes, put, w).replicas[nodes[i]] == Copy([], 1))
  {
    StartReachable(c, nodes, {put}, {get});
    PutReaches(c, nodes, {put}, {get}, START, FirstFates(|nodes|, |nodes|), Copy([], 1), put);
    var one := AfterPut(c, nodes, START, FirstFates(|nodes|, |nodes|), Copy([], 1), put);
    PutReaches(c, nodes, {put}, {get}, one, FirstFates(|nodes|, w), Copy([], 2), put);
    EnoughAcks(nodes, w);
    assert TwoPuts(c, nodes, put, w).puts[0] == Copy([], 1);
    TwoPutsHold(c, nodes, put, w);
  }

  lemma TwoPutsHold(c: Config, nodes: seq<Node>, put: Level, w: nat)
    requires w <= |nodes| && NoRepeats(nodes)
    ensures forall i :: 0 <= i < |nodes| ==>
              && nodes[i] in TwoPuts(c, nodes, put, w).replicas
              && (w <= i ==> TwoPuts(c, nodes, put, w).replicas[nodes[i]] == Copy([], 1))
  {
    var first := Delivered(map[], nodes, FirstFates(|nodes|, |nodes|), Copy([], 1), |nodes|);
    forall i | 0 <= i < |nodes|
      ensures && nodes[i] in TwoPuts(c, nodes, put, w).replicas
              && (w <= i ==> TwoPuts(c, nodes, put, w).replicas[nodes[i]] == Copy([], 1))
    {
      FirstDelivered(map[], nodes, Copy([], 1), |nodes|, |nodes|, i);
      FirstDelivered(first, nodes, Copy([], 2), w, |nodes|, i);
    }
  }

  /** A read step does not return less than the newest acknowledged Put. */
  predicate FreshStep(c: Config, nodes: seq<Node>, s: State, a: Action)
    requires Enabled(nodes, s, a)
  {
    var out := Step(c, nodes, s, a).1;
    out.ReadCopy? && s.acked.Newest? ==> s.acked.timestamp <= out.copy.timestamp
  }

  /** In every reachable state with at most `late` late writes so far. */
  ghost predicate ReadsAreFresh(c: Config, nodes: seq<Node>, put: Level, get: Level, late: nat) {
    forall s, a :: Reachable(c, nodes, {put}, {get}, s) && s.late <= late && Enabled(nodes, s, a) ==> FreshStep(c, nodes, s, a)
  }

  /** A state in which the first Put was delivered once more to the `k` nodes from `at` on. */
  function LateAgain(s: State, nodes: seq<Node>, at: nat, k: nat): State
    requires at + k <= |nodes|
  {
    if k == 0 then s
    else
      var t := LateAgain(s, nodes, at, k - 1);
      t.(replicas := Write(t.replicas, nodes[at + k - 1], Copy([], 1)), late := t.late + 1)
  }

  lemma {:induction false} LateAgainCounts(s: State, nodes: seq<Node>, at: nat, k: nat)
    requires at + k <= |nodes|
    ensures var t := LateAgain(s, nodes, at, k); t == s.(replicas := t.replicas, late := s.late + k)
  {
    if k == 0 {
    } else {
      LateAgainCounts(s, nodes, at, k - 1);
    }
  }

  lemma {:induction false} LateAgainReachable(c: Config, nodes: seq<Node>, put: Level, get: Level, s: State, at: nat, k: nat)
    requires at + k <= |nodes| && Copy([], 1) in s.puts && Reachable(c, nodes, {put}, {get}, s)
    ensures Reachable(c, nodes, {put}, {get}, LateAgain(s, nodes, at, k))
  {
    if k == 0 {
    } else {
      LateAgainCounts(s, nodes, at, k - 1);
      LateAgainReachable(c, nodes, put, get, s, at, k - 1);
      LateReachable(c, nodes, put, get, LateAgain(s, nodes, at, k - 1), nodes[at + k - 1], Copy([], 1));
    }
  }

  lemma LateReachable(c: Config, nodes: seq<Node>, put: Level, get: Level, s: State, n: Node, copy: Copy)
    requires Reachable(c, nodes, {put}, {get}, s) && n in nodes && copy in s.puts
    ensures Reachable(c, nodes, {put}, {get}, s.(replicas := Write(s.replicas, n, copy), late := s.late + 1))
  {
    StepReachable(c, nodes, {put}, {get}, s, Late(n, copy));
  }

  lemma {:induction false} LateAgainHolds(s: State, nodes: seq<Node>, at: nat, k: nat, i: nat)
    requires at + k <= |nodes| && i < |nodes| && nodes[i] in s.replicas
    ensures var t := LateAgain(s, nodes, at, k);
            && nodes[i] in t.replicas
            && (at <= i < at + k || s.replicas[nodes[i]] == Copy([], 1) ==> t.replicas[nodes[i]] == Copy([], 1))
  {
    if k == 0 {
    } else {
      LateAgainHolds(s, nodes, at, k - 1, i);
    }
  }

  /** With `k` more deliveries of the first Put, all nodes from `at` on hold it again. */
  lemma UndoneReachable(c: Config, nodes: seq<Node>, put: Level, get: Level, s: State, at: nat, k: nat) returns (t: State)
    requires at + k <= |nodes| && Copy([], 1) in s.puts && Reachable(c, nodes, {put}, {get}, s)
    requires forall i :: 0 <= i < |nodes| ==> nodes[i] in s.replicas && (at + k <= i ==> s.replicas[nodes[i]] == Copy([], 1))
    ensures Reachable(c, nodes, {put}, {get}, t) && t == s.(replicas := t.replicas, late := s.late + k)
    ensures forall i :: 0 <= i < |nodes| ==> nodes[i] in t.replicas && (at <= i ==> t.replicas[nodes[i]] == Copy([], 1))
  {
    t := LateAgain(s, nodes, at, k);
    LateAgainReachable(c, nodes, put, get, s, at, k);
    LateAgainCounts(s, nodes, at, k);
    AllHoldFirst(s, nodes, at, k);
  }

  lemma AllHoldFirst(s: State, nodes: seq<Node>, at: nat, k: nat)
    requires at + k <= |nodes|
    requires forall i :: 0 <= i < |nodes| ==> nodes[i] in s.replicas && (at + k <= i ==> s.replicas[nodes[i]] == Copy([], 1))
    ensures var t := LateAgain(s, nodes, at, k);
            forall i :: 0 <= i < |nodes| ==> nodes[i] in t.replicas && (at <= i ==> t.replicas[nodes[i]] == Copy([], 1))
  {
    forall i | 0 <= i < |nodes|
      ensures var t := LateAgain(s, nodes, at, k); nodes[i] in t.replicas && (at <= i ==> t.replicas[nodes[i]] == Copy([], 1))
    {
      LateAgainHolds(s, nodes, at, k, i);
    }
  }

  /** A Get that hears only the nodes from `at` on, which all hold the first Put, answers with it. */
  lemma StaleGet(c: Config, nodes: seq<Node>, put: Level, get: Level, s: State, at: nat)
    requires ValidConfig(c) && NoRepeats(nodes) && at + ReadNeeds(c, get) <= |nodes|
    requires Reachable(c, nodes, {put}, {get}, s) && s.phase.Idle? && s.acked.Newest? && s.acked.timestamp == 2
    requires forall i :: 0 <= i < |nodes| ==> nodes[i] in s.replicas && (at <= i ==> s.replicas[nodes[i]] == Copy([], 1))
    ensures !ReadsAreFresh(c, nodes, put, get, s.late)
  {
    var heard := LastHeard(|nodes|, at);
    GetReaches(c, nodes, {put}, {get}, s, heard, nodes[0], get);
    var t := s.(phase := Reading(nodes[0], ReadNeeds(c, get), RepliesOf(s.replicas, nodes, heard, |nodes|)));
    OnlyFirstHeard(c, nodes, s, at, get);
    assert Enabled(nodes, t, EndGet(Copy([], 1)));
    assert !FreshStep(c, nodes, t, EndGet(Copy([], 1)));
  }

  lemma OnlyFirstHeard(c: Config, nodes: seq<Node>, s: State, at: nat, get: Level)
    requires ValidConfig(c) && NoRepeats(nodes) && at + ReadNeeds(c, get) <= |nodes|
    requires forall i :: 0 <= i < |nodes| ==> nodes[i] in s.replicas && (at <= i ==> s.replicas[nodes[i]] == Copy([], 1))
    ensures var replies := RepliesOf(s.replicas, nodes, LastHeard(|nodes|, at), |nodes|);
            0 < |replies| && ReadNeeds(c, get) <= |replies| && IsLatest(replies, Copy([], 1))
  {
    var heard := LastHeard(|nodes|, at);
    var replies := RepliesOf(s.replicas, nodes, heard, |nodes|);
    LastReplies(s.replicas, nodes, at);
    assert |replies| == |replies.Keys| > 0;
    forall n | n in replies
      ensures replies[n] == Copy([], 1)
    {
      var i := ReplyCame(s.replicas, nodes, heard, |nodes|, n);
    }
    var n :| n in replies;
  }

  /** Enough replicas for both requirements, but not for their overlap beyond the late writes. */
  predicate CanMiss(c: Config, nodes: seq<Node>, put: Level, get: Level, late: nat) {
    && WriteNeeds(c, put) <= |nodes| && ReadNeeds(c, get) <= |nodes|
    && WriteNeeds(c, put) + ReadNeeds(c, get) <= |nodes| + late
  }

  lemma StaleReadReachable(c: Config, nodes: seq<Node>, put: Level, get: Level, late: nat)
    requires ValidConfig(c) && NoRepeats(nodes) && CanMiss(c, nodes, put, get, late)
    ensures !ReadsAreFresh(c, nodes, put, get, late)
  {
    var w := WriteNeeds(c, put);
    var k := if late <= w then late else w;
    TwoPutsReachable(c, nodes, put, get, w);
    var s := UndoneReachable(c, nodes, put, get, TwoPuts(c, nodes, put, w), w - k, k);
    StaleGet(c, nodes, put, get, s, w - k);
    MoreLate(c, nodes, put, get, k, late);
  }

  lemma MoreLate(c: Config, nodes: seq<Node>, put: Level, get: Level, k: nat, late: nat)
    requires k <= late && !ReadsAreFresh(c, nodes, put, get, k)
    ensures !ReadsAreFresh(c, nodes, put, get, late)
  {
    var s, a :| Reachable(c, nodes, {put}, {get}, s) && s.late <= k && Enabled(nodes, s, a) && !FreshStep(c, nodes, s, a);
  }

  predicate LevelsHeld(c: Config, s: State, put: Level, get: Level) {
    && (s.acked.Newest? ==> s.acked.needed == WriteNeeds(c, put))
    && (s.phase.Writing? ==> s.phase.needed == WriteNeeds(c, put))
    && (s.phase.Reading? ==> s.phase.needed == ReadNeeds(c, get))
  }

  lemma LevelsStep(c: Config, nodes: seq<Node>, s: State, a: Action, put: Level, get: Level)
    requires LevelsHeld(c, s, put, get) && Enabled(nodes, s, a) && LevelIn(a, {put}, {get})
    ensures LevelsHeld(c, Step(c, nodes, s, a).0, put, get)
    ensures s.late <= Step(c, nodes, s, a).0.late
  {
  }

  lemma {:induction false} RunHoldsLevels(c: Config, nodes: seq<Node>, run: seq<Action>, put: Level, get: Level)
    requires IsRun(c, nodes, run) && UsesLevels(run, {put}, {get})
    ensures LevelsHeld(c, StateAfter(c, nodes, run), put, get)
  {
    if run == [] {
    } else {
      var init := run[..|run| - 1];
      assert forall i :: 0 <= i < |init| ==> init[i] == run[i];
      RunHoldsLevels(c, nodes, init, put, get);
      LevelsStep(c, nodes, StateAfter(c, nodes, init), run[|run| - 1], put, get);
    }
  }

  lemma LevelsOverlap(c: Config, nodes: seq<Node>, s: State, put: Level, get: Level)
    requires Inv(nodes, s) && LevelsHeld(c, s, put, get) && !CanMiss(c, nodes, put, get, s.late)
    ensures Overlaps(nodes, s)
  {
    if s.phase.Reading? {
      assert |s.phase.replies| == |s.phase.replies.Keys|;
      SubsetSize(s.phase.replies.Keys, Members(nodes));
      MembersSize(nodes);
    }
  }

  lemma {:induction false} RunOverlaps(c: Config, nodes: seq<Node>, run: seq<Action>, put: Level, get: Level)
    requires IsRun(c, nodes, run) && UsesLevels(run, {put}, {get})
    requires !CanMiss(c, nodes, put, get, StateAfter(c, nodes, run).late)
    ensures AllOverlap(c, nodes, run)
    ensures Inv(nodes, StateAfter(c, nodes, run))
  {
    if run == [] {
    } else {
      var init, a := run[..|run| - 1], run[|run| - 1];
      assert forall i :: 0 <= i < |init| ==> init[i] == run[i];
      var s := StateAfter(c, nodes, init);
      LateGrows(c, nodes, s, a);
      RunOverlaps(c, nodes, init, put, get);
      RunHoldsLevels(c, nodes, init, put, get);
      LevelsOverlap(c, nodes, s, put, get);
      StepKeepsInv(c, nodes, s, a);
    }
  }

  lemma LateGrows(c: Config, nodes: seq<Node>, s: State, a: Action)
    requires Enabled(nodes, s, a)
    ensures s.late <= Step(c, nodes, s, a).0.late <= s.late + 1
  {
  }

  /**
   * With one level for Puts and one for Gets, and any number of late writes up to a bound, reads are
   * always fresh exactly when the two requirements exceed the number of replicas and the bound
   * together, unless one of them cannot be met at all.
   */
  lemma FreshExactlyWhenOverlapping(c: Config, nodes: seq<Node>, put: Level, get: Level, late: nat)
    requires ValidConfig(c) && NoRepeats(nodes)
    ensures ReadsAreFresh(c, nodes, put, get, late) <==> !CanMiss(c, nodes, put, get, late)
    ensures |nodes| == c.replicationFactor ==>
              (ReadsAreFresh(c, nodes, put, get, late) <==> WriteNeeds(c, put) + ReadNeeds(c, get) > |nodes| + late)
  {
    if CanMiss(c, nodes, put, get, late) {
      StaleReadReachable(c, nodes, put, get, late);
    } else {
      forall s, a | Reachable(c, nodes, {put}, {get}, s) && s.late <= late && Enabled(nodes, s, a)
        ensures FreshStep(c, nodes, s, a)
      {
        var run :| RunsTo(c, nodes, {put}, {get}, run, s);
        RunOverlaps(c, nodes, run, put, get);
        RunHoldsLevels(c, nodes, run, put, get);
        LevelsOverlap(c, nodes, s, put, get);
        StepKeepsInv(c, nodes, s, a);
      }
    }
  }

  /**
   * In numbers, for every pair of levels: with all replicas on one side freshness survives fewer late
   * writes than the other side needs nodes; otherwise the requirements have to overlap by more.
   */
  lemma FreshnessByLevel(c: Config, nodes: seq<Node>, put: Level, get: Level, late: nat)
    requires ValidConfig(c) && NoRepeats(nodes) && |nodes| == c.replicationFactor
    ensures var safe := ReadsAreFresh(c, nodes, put, get, late);
            match put
            case LevelAll =>
              (match get
               case LevelOne => safe <==> late < 1
               case LevelAll => safe <==> late < c.replicationFactor
               case LevelQuorum => safe <==> late < c.readQuorum)
            case LevelOne =>
              (match get
               case LevelOne => safe <==> 2 > c.replicationFactor + late
               case LevelAll => safe <==> late < 1
               case LevelQuorum => safe <==> 1 + c.readQuorum > c.replicationFactor + late)
            case LevelQuorum =>
              (match get
               case LevelOne => safe <==> c.writeQuorum + 1 > c.replicationFactor + late
               case LevelAll => safe <==> late < c.writeQuorum
               case LevelQuorum => safe <==> c.writeQuorum + c.readQuorum > c.replicationFactor + late)
  {
    FreshExactlyWhenOverlapping(c, nodes, put, get, late);
  }

  /** Two of three and two of three replicas are enough without late writes, and not with a single one. */
  lemma LateWriteBreaksFreshness(nodes: seq<Node>)
    requires NoRepeats(nodes) && |nodes| == 3
    ensures ReadsAreFresh(Config(3, 2, 2), nodes, LevelQuorum, LevelQuorum, 0)
    ensures !ReadsAreFresh(Config(3, 2, 2), nodes, LevelQuorum, LevelQuorum, 1)
  {
    FreshExactlyWhenOverlapping(Config(3, 2, 2), nodes, LevelQuorum, LevelQuorum, 0);
    FreshExactlyWhenOverlapping(Config(3, 2, 2), nodes, LevelQuorum, LevelQuorum, 1);
  }
}
