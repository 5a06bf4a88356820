/**
 * The quorum manager's executions: one goroutine per operation, a waiter goroutine and the caller,
 * interleaved step by step around a mutex, a wait group and a channel that is closed to signal.
 */
module QuorumManager {
  import opened Sequences
  import opened Types
  import Q = Quorum

  type Copy = Q.Copy

  /** What an operation returns; a read of an absent key is `Missing`, a write is never `Missing`. */
  datatype Outcome = Failed | Missing | Found(entry: Copy)

  /** Where a worker is; `Counting` to `Unlocking` hold the mutex, and the wait group is told last. */
  datatype Stage = Unborn | Executing | Wanting | Counting | Checking | Selecting | Closing | Unlocking | Leaving | Gone

  datatype Worker = Worker(stage: Stage, outcome: Outcome)

  datatype Lock = Free | Held(holder: nat)

  datatype Waiter = Absent | Waiting | AtSelect | AtClose | Over

  datatype Latest = NoEntry | LatestEntry(copy: Copy)

  datatype Result = Result(success: bool, successCount: nat, errorCount: nat, latest: Latest)

  datatype Caller = Spawning(next: nat) | Blocked | Returned(result: Result)

  datatype State = State(
    workers: seq<Worker>, lock: Lock, pending: int, closes: nat, waiter: Waiter, caller: Caller,
    successCount: nat, errorCount: nat, entries: seq<Copy>)

  datatype Action = Call | Execute(i: nat, outcome: Outcome) | Work(i: nat) | Wait

  function Start(n: nat): State {
    State(seq(n, i => Worker(Unborn, Failed)), Free, 0, 0, Absent, Spawning(0), 0, 0, [])
  }

  // --------------------------------------------------------------- latest entry

  /** The first of the entries with the greatest timestamp. */
  predicate IsFirstLatest(entries: seq<Copy>, at: nat) {
    && at < |entries|
    && (forall j :: 0 <= j < |entries| ==> entries[j].timestamp <= entries[at].timestamp)
    && (forall j :: 0 <= j < at ==> entries[j].timestamp < entries[at].timestamp)
  }

  function LatestIndex(entries: seq<Copy>): (at: nat)
    requires entries != []
    ensures IsFirstLatest(entries, at)
  {
    if |entries| == 1 then 0
    else
      var last := |entries| - 1;
      var before := LatestIndex(entries[..last]);
      if entries[last].timestamp > entries[before].timestamp then last else before
  }

  function LatestOf(entries: seq<Copy>): Latest {
    if entries == [] then NoEntry else LatestEntry(entries[LatestIndex(entries)])
  }

  lemma LatestIsUnique(entries: seq<Copy>, at: nat)
    requires IsFirstLatest(entries, at)
    ensures LatestIndex(entries) == at
  {
  }

  /** The scan that picks the value a read returns. */
  method ScanLatest(entries: seq<Copy>) returns (r: Latest)
    ensures r == LatestOf(entries)
    ensures r.NoEntry? <==> entries == []
    ensures r.LatestEntry? ==>
              exists at :: && 0 <= at < |entries| && entries[at] == r.copy
                           && (forall j :: 0 <= j < |entries| ==> entries[j].timestamp <= r.copy.timestamp)
                           && (forall j :: 0 <= j < at ==> entries[j].timestamp < r.copy.timestamp)
  {
    if |entries| == 0 {
      return NoEntry;
    }
    var latest := entries[0];
    ghost var at := 0;
    for i := 0 to |entries|
      invariant at < |entries| && at <= i && latest == entries[at]
      invariant forall j :: 0 <= j < i ==> entries[j].timestamp <= latest.timestamp
      invariant forall j :: 0 <= j < at ==> entries[j].timestamp < latest.timestamp
    {
      if entries[i].timestamp > latest.timestamp {
        latest, at := entries[i], i;
      }
    }
    LatestIsUnique(entries, at);
    return LatestEntry(latest);
  }

  // ---------------------------------------------------------------------- steps

  predicate Enabled(s: State, a: Action) {
    match a
    case Call => s.caller.Spawning? || (s.caller.Blocked? && s.closes > 0)
    case Execute(i, _) => i < |s.workers| && s.workers[i].stage == Executing
    case Work(i) => i < |s.workers| && CanWork(s, s.workers[i].stage)
    case Wait => (s.waiter == Waiting && s.pending == 0) || s.waiter == AtSelect || s.waiter == AtClose
  }

  predicate CanWork(s: State, stage: Stage) {
    match stage
    case Unborn => false
    case Executing => false
    case Wanting => s.lock == Free
    case Gone => false
    case _ => true
  }

  function Step(required: int, s: State, a: Action): State
    requires Enabled(s, a)
  {
    match a
    case Call => CallerStep(required, s)
    case Execute(i, outcome) => s.(workers := s.workers[i := Worker(Wanting, outcome)])
    case Work(i) => WorkerStep(required, s, i)
    case Wait => WaiterStep(s)
  }

  /** The caller adds to the wait group and spawns, starts the waiter, then blocks on the channel. */
  function CallerStep(required: int, s: State): State
    requires Enabled(s, Call)
  {
    match s.caller
    case Spawning(next) =>
      if next < |s.workers| then
        s.(workers := s.workers[next := Worker(Executing, s.workers[next].outcome)], pending := s.pending + 1, caller := Spawning(next + 1))
      else s.(waiter := Waiting, caller := Blocked)
    case Blocked =>
      s.(caller := Returned(Result(s.successCount >= required, s.successCount, s.errorCount, LatestOf(s.entries))))
  }

  function Moved(s: State, i: nat, stage: Stage): State
    requires i < |s.workers|
  {
    s.(workers := s.workers[i := s.workers[i].(stage := stage)])
  }

  function WorkerStep(required: int, s: State, i: nat): State
    requires Enabled(s, Work(i))
  {
    var w := s.workers[i];
    match w.stage
    case Wanting => Moved(s, i, Counting).(lock := Held(i))
    case Counting => Moved(Counted(s, w.outcome), i, Checking)
    case Checking => Moved(s, i, if s.successCount >= required then Selecting else Unlocking)
    case Selecting => Moved(s, i, if s.closes > 0 then Unlocking else Closing)
    case Closing => Moved(s, i, Unlocking).(closes := s.closes + 1)
    case Unlocking => Moved(s, i, Leaving).(lock := Free)
    case Leaving => Moved(s, i, Gone).(pending := s.pending - 1)
  }

  function Counted(s: State, outcome: Outcome): State {
    match outcome
    case Failed => s.(errorCount := s.errorCount + 1)
    case Missing => s
    case Found(e) => s.(successCount := s.successCount + 1, entries := s.entries + [e])
  }

  function WaiterStep(s: State): State
    requires Enabled(s, Wait)
  {
    match s.waiter
    case Waiting => s.(waiter := AtSelect)
    case AtSelect => s.(waiter := if s.closes > 0 then Over else AtClose)
    case AtClose => s.(waiter := Over, closes := s.closes + 1)
  }

  // ------------------------------------------------------------ sets of workers

  function Where(workers: seq<Worker>, p: Worker -> bool): set<nat> {
    set i: nat | i < |workers| && p(workers[i])
  }

  lemma WhereUpdate(workers: seq<Worker>, i: nat, w: Worker, p: Worker -> bool)
    requires i < |workers|
    ensures Where(workers[i := w], p) == if p(w) then Where(workers, p) + {i} else Where(workers, p) - {i}
  {
  }

  predicate InSection(w: Worker) {
    w.stage == Counting || w.stage == Checking || w.stage == Selecting || w.stage == Closing || w.stage == Unlocking
  }

  predicate HasCounted(w: Worker) {
    w.stage == Checking || w.stage == Selecting || w.stage == Closing || w.stage == Unlocking || w.stage == Leaving || w.stage == Gone
  }

  predicate Running(w: Worker) { w.stage != Unborn && w.stage != Gone }

  predicate Succeeded(w: Worker) { HasCounted(w) && w.outcome.Found? }

  predicate Erred(w: Worker) { HasCounted(w) && w.outcome.Failed? }

  predicate AllGone(s: State) { forall i :: 0 <= i < |s.workers| ==> s.workers[i].stage == Gone }

  predicate SomeCounted(s: State) { exists i :: 0 <= i < |s.workers| && HasCounted(s.workers[i]) }

  // ------------------------------------------------------------------ invariant

  /** The mutex has exactly the holder that is in its section. */
  ghost predicate Locked(s: State) {
    && (s.lock.Held? ==> s.lock.holder < |s.workers|)
    && forall i: nat :: i < |s.workers| ==> (InSection(s.workers[i]) <==> s.lock == Held(i))
  }

  ghost predicate Spawned(s: State) {
    && (s.caller.Spawning? ==> s.caller.next <= |s.workers|)
    && (forall i: nat :: i < |s.workers| ==> (s.workers[i].stage == Unborn <==> s.caller.Spawning? && s.caller.next <= i))
    && (s.caller.Spawning? <==> s.waiter == Absent)
  }

  ghost predicate Counts(s: State) {
    && s.pending == |Where(s.workers, Running)|
    && s.successCount == |Where(s.workers, Succeeded)| == |s.entries|
    && s.errorCount == |Where(s.workers, Erred)|
  }

  /** The collected entries are what the successful operations returned. */
  ghost predicate FromWorkers(workers: seq<Worker>, entries: seq<Copy>) {
    && (forall i: nat :: i < |workers| && Succeeded(workers[i]) ==> workers[i].outcome.entry in entries)
    && (forall e :: e in entries ==> exists i: nat :: i < |workers| && Returns(workers[i], e))
  }

  ghost predicate Collected(s: State) { FromWorkers(s.workers, s.entries) }

  predicate PastCheck(stage: Stage) { stage == Selecting || stage == Closing }

  /** Why the channel is closed, or who is about to close it. */
  ghost predicate Signalled(required: int, s: State) {
    && s.closes <= 1
    && (s.waiter == AtSelect || s.waiter == AtClose || s.waiter == Over ==> AllGone(s))
    && (s.waiter == Over ==> s.closes == 1)
    && (s.waiter == AtClose ==> s.closes == 0)
    && (forall i: nat :: i < |s.workers| && s.workers[i].stage == Closing ==> s.closes == 0)
    && (forall i: nat :: i < |s.workers| && PastCheck(s.workers[i].stage) ==> s.successCount >= required)
    && (s.closes == 1 ==> (s.successCount >= required && SomeCounted(s)) || s.waiter == Over)
    && (s.closes == 0 && s.successCount >= required && SomeCounted(s) ==> CloseComing(s))
  }

  predicate CloseComing(s: State) {
    && s.lock.Held? && s.lock.holder < |s.workers|
    && (s.workers[s.lock.holder].stage == Checking || PastCheck(s.workers[s.lock.holder].stage))
  }

  /** What the caller returned was true of the shared result when it read it, and a failure is final. */
  ghost predicate Reported(required: int, s: State) { s.caller.Returned? ==> ReportHolds(required, s, s.caller.result) }

  ghost predicate ReportHolds(required: int, s: State, r: Result) {
    && s.closes == 1
    && r.successCount <= s.successCount && r.successCount <= |s.entries|
    && r.latest == LatestOf(s.entries[..r.successCount])
    && (r.success <==> r.successCount >= required)
    && (!r.success ==> AllGone(s) && r.successCount == s.successCount && r.errorCount == s.errorCount)
  }

  ghost predicate Inv(required: int, s: State) {
    Locked(s) && Spawned(s) && Counts(s) && Collected(s) && Signalled(required, s) && Reported(required, s)
  }

  lemma {:induction false} StartKeepsInv(required: int, n: nat)
    ensures Inv(required, Start(n))
  {
    var s := Start(n);
    assert Where(s.workers, Running) == {} && Where(s.workers, Succeeded) == {} && Where(s.workers, Erred) == {};
  }

  // each part of the invariant, step by step

  lemma StepKeepsLocked(required: int, s: State, a: Action)
    requires Locked(s) && Spawned(s) && Enabled(s, a)
    ensures Locked(Step(required, s, a))
  {
    if a.Work? { WorkKeepsLocked(required, s, a.i); }
  }

  lemma WorkKeepsLocked(required: int, s: State, i: nat)
    requires Locked(s) && Enabled(s, Work(i))
    ensures Locked(WorkerStep(required, s, i))
  {
    var s' := WorkerStep(required, s, i);
    forall j: nat | j < |s.workers|
      ensures InSection(s'.workers[j]) <==> s'.lock == Held(j)
    {
      assert InSection(s.workers[j]) <==> s.lock == Held(j);
    }
  }

  lemma StepKeepsSpawned(required: int, s: State, a: Action)
    requires Spawned(s) && Enabled(s, a)
    ensures Spawned(Step(required, s, a))
  {
  }

  /** How replacing worker `i` changes the number of workers that satisfy a predicate. */
  lemma SizeUpdate(workers: seq<Worker>, i: nat, w: Worker, p: Worker -> bool)
    requires i < |workers|
    ensures |Where(workers[i := w], p)| == |Where(workers, p)| + (if p(w) then 1 else 0) - (if p(workers[i]) then 1 else 0)
  {
    WhereUpdate(workers, i, w, p);
    assert p(workers[i]) <==> i in Where(workers, p);
  }

  lemma CountsUpdate(s: State, i: nat, w: Worker)
    requires Counts(s) && i < |s.workers|
    ensures var before := s.workers[i]; var after := s.workers[i := w];
            && |Where(after, Running)| == s.pending + (if Running(w) then 1 else 0) - (if Running(before) then 1 else 0)
            && |Where(after, Succeeded)| == s.successCount + (if Succeeded(w) then 1 else 0) - (if Succeeded(before) then 1 else 0)
            && |Where(after, Erred)| == s.errorCount + (if Erred(w) then 1 else 0) - (if Erred(before) then 1 else 0)
  {
    SizeUpdate(s.workers, i, w, Running);
    SizeUpdate(s.workers, i, w, Succeeded);
    SizeUpdate(s.workers, i, w, Erred);
  }

  lemma WorkKeepsCounts(required: int, s: State, i: nat)
    requires Counts(s) && Enabled(s, Work(i))
    ensures Counts(WorkerStep(required, s, i))
  {
    var s' := WorkerStep(required, s, i);
    CountsUpdate(s, i, s'.workers[i]);
    assert s'.workers == s.workers[i := s'.workers[i]];
  }

  lemma StepKeepsCounts(required: int, s: State, a: Action)
    requires Counts(s) && Spawned(s) && Enabled(s, a)
    ensures Counts(Step(required, s, a))
  {
    match a
    case Call =>
      if s.caller.Spawning? && s.caller.next < |s.workers| {
        CountsUpdate(s, s.caller.next, Worker(Executing, s.workers[s.caller.next].outcome));
      }
    case Execute(i, outcome) => CountsUpdate(s, i, Worker(Wanting, outcome));
    case Work(i) => WorkKeepsCounts(required, s, i);
    case Wait =>
  }

  predicate Returns(w: Worker, e: Copy) { Succeeded(w) && w.outcome.entry == e }

  /** Changing worker `i` keeps what the workers returned, unless it is the one now counted. */
  lemma CollectedUpdate(workers: seq<Worker>, entries: seq<Copy>, i: nat, w: Worker, entries': seq<Copy>)
    requires FromWorkers(workers, entries) && i < |workers|
    requires if Succeeded(w) && !Succeeded(workers[i]) then entries' == entries + [w.outcome.entry]
             else entries' == entries && (Succeeded(workers[i]) ==> Succeeded(w) && w.outcome == workers[i].outcome)
    ensures FromWorkers(workers[i := w], entries')
  {
    var after := workers[i := w];
    forall e | e in entries'
      ensures exists k: nat :: k < |after| && Returns(after[k], e)
    {
      if e in entries {
        var k: nat :| k < |workers| && Returns(workers[k], e);
        assert Returns(after[k], e);
      } else {
        assert Returns(after[i], e);
      }
    }
  }

  lemma WorkKeepsCollected(required: int, s: State, i: nat)
    requires Collected(s) && Enabled(s, Work(i))
    ensures Collected(WorkerStep(required, s, i))
  {
    var s' := WorkerStep(required, s, i);
    CollectedUpdate(s.workers, s.entries, i, s'.workers[i], s'.entries);
    assert s'.workers == s.workers[i := s'.workers[i]];
  }

  lemma StepKeepsCollected(required: int, s: State, a: Action)
    requires Collected(s) && Spawned(s) && Enabled(s, a)
    ensures Collected(Step(required, s, a))
  {
    match a
    case Call =>
      if s.caller.Spawning? && s.caller.next < |s.workers| {
        CollectedUpdate(s.workers, s.entries, s.caller.next, Worker(Executing, s.workers[s.caller.next].outcome), s.entries);
      }
    case Execute(i, outcome) => CollectedUpdate(s.workers, s.entries, i, Worker(Wanting, outcome), s.entries);
    case Work(i) => WorkKeepsCollected(required, s, i);
    case Wait =>
  }

  lemma StepKeepsSignalled(required: int, s: State, a: Action)
    requires Signalled(required, s) && Locked(s) && Spawned(s) && Counts(s) && Enabled(s, a)
    ensures Signalled(required, Step(required, s, a))
  {
    match a
    case Call => CallKeepsSignalled(required, s);
    case Execute(i, outcome) => ExecuteKeepsSignalled(required, s, i, outcome);
    case Work(i) => WorkKeepsSignalled(required, s, i);
    case Wait => WaitKeepsSignalled(required, s);
  }

  lemma CallKeepsSignalled(required: int, s: State)
    requires Signalled(required, s) && Spawned(s) && Enabled(s, Call)
    ensures Signalled(required, CallerStep(required, s))
  {
    var s' := CallerStep(required, s);
    assert SomeCounted(s') ==> SomeCounted(s);
    if SomeCounted(s) {
      var k :| 0 <= k < |s.workers| && HasCounted(s.workers[k]);
      assert HasCounted(s'.workers[k]);
    }
  }

  lemma ExecuteKeepsSignalled(required: int, s: State, i: nat, outcome: Outcome)
    requires Signalled(required, s) && Locked(s) && Enabled(s, Execute(i, outcome))
    ensures Signalled(required, Step(required, s, Execute(i, outcome)))
  {
    var s' := Step(required, s, Execute(i, outcome));
    if SomeCounted(s) {
      var k :| 0 <= k < |s.workers| && HasCounted(s.workers[k]);
      assert HasCounted(s'.workers[k]);
    }
  }

  lemma CountedStay(required: int, s: State, i: nat)
    requires Enabled(s, Work(i)) && SomeCounted(s)
    ensures SomeCounted(WorkerStep(required, s, i))
  {
    var k :| 0 <= k < |s.workers| && HasCounted(s.workers[k]);
    assert HasCounted(WorkerStep(required, s, i).workers[k]);
  }

  /** While a worker is in the mutex no other is, and the waiter has not woken. */
  lemma WorkKeepsSignalled(required: int, s: State, i: nat)
    requires Signalled(required, s) && Locked(s) && Enabled(s, Work(i))
    ensures Signalled(required, WorkerStep(required, s, i))
  {
    if SomeCounted(s) { CountedStay(required, s, i); }
    if s.workers[i].stage == Closing {
      CloseKeepsSignalled(required, s, i);
    } else {
      OtherWorkKeepsSignalled(required, s, i);
    }
  }

  /** The closing worker has the mutex and nobody closed the channel before it. */
  lemma CloseKeepsSignalled(required: int, s: State, i: nat)
    requires Signalled(required, s) && Locked(s) && Enabled(s, Work(i)) && s.workers[i].stage == Closing
    ensures Signalled(required, WorkerStep(required, s, i))
  {
    assert HasCounted(WorkerStep(required, s, i).workers[i]);
  }

  lemma OtherWorkKeepsSignalled(required: int, s: State, i: nat)
    requires Signalled(required, s) && Locked(s) && Enabled(s, Work(i)) && s.workers[i].stage != Closing
    requires SomeCounted(s) ==> SomeCounted(WorkerStep(required, s, i))
    ensures Signalled(required, WorkerStep(required, s, i))
  {
    var s' := WorkerStep(required, s, i);
    forall j: nat | j < |s'.workers| && PastCheck(s'.workers[j].stage)
      ensures s'.successCount >= required
    {
      assert j != i ==> PastCheck(s.workers[j].stage);
    }
    OtherWorkKeepsComing(required, s, i);
  }

  /** When a close is due, a worker that will do it is in its section. */
  lemma OtherWorkKeepsComing(required: int, s: State, i: nat)
    requires Signalled(required, s) && Locked(s) && Enabled(s, Work(i)) && s.workers[i].stage != Closing
    ensures var s' := WorkerStep(required, s, i);
            s'.closes == 0 && s'.successCount >= required && SomeCounted(s') ==> CloseComing(s')
  {
  }

  /** The waiter wakes only when every worker told the wait group. */
  lemma WaitKeepsSignalled(required: int, s: State)
    requires Signalled(required, s) && Locked(s) && Spawned(s) && Counts(s) && Enabled(s, Wait)
    ensures Signalled(required, WaiterStep(s))
  {
    if s.waiter == Waiting {
      forall i: nat | i < |s.workers|
        ensures s.workers[i].stage == Gone
      {
        assert i !in Where(s.workers, Running);
      }
    }
  }

  /** The collected entries only grow, and stop growing when every worker is gone. */
  lemma WorkOnlyAdds(required: int, s: State, i: nat)
    requires Signalled(required, s) && Locked(s) && Enabled(s, Work(i))
    ensures var s' := WorkerStep(required, s, i);
            && !AllGone(s)
            && s.entries <= s'.entries && s.successCount <= s'.successCount
            && (s.closes == 1 ==> s'.closes == 1)
            && s'.caller == s.caller
  {
    assert s.workers[i].stage != Gone;
  }

  lemma StepKeepsReported(required: int, s: State, a: Action)
    requires Reported(required, s) && Signalled(required, s) && Locked(s) && Counts(s) && Enabled(s, a)
    ensures Reported(required, Step(required, s, a))
  {
    match a
    case Call => assert s.entries[..|s.entries|] == s.entries;
    case Execute(i, _) => assert s.workers[i].stage != Gone;
    case Work(i) =>
      WorkOnlyAdds(required, s, i);
      if s.caller.Returned? {
        var k := s.caller.result.successCount;
        assert WorkerStep(required, s, i).entries[..k] == s.entries[..k];
      }
    case Wait =>
  }

  lemma StepKeepsInv(required: int, s: State, a: Action)
    requires Inv(required, s) && Enabled(s, a)
    ensures Inv(required, Step(required, s, a))
  {
    StepKeepsLocked(required, s, a);
    StepKeepsSpawned(required, s, a);
    StepKeepsCounts(required, s, a);
    StepKeepsCollected(required, s, a);
    StepKeepsSignalled(required, s, a);
    StepKeepsReported(required, s, a);
  }

  // ----------------------------------------------------------------- whole runs

  ghost predicate IsRun(required: int, n: nat, run: seq<Action>)
    decreases |run|, 0
  {
    run == [] || (var init := run[..|run| - 1]; IsRun(required, n, init) && Enabled(StateAfter(required, n, init), run[|run| - 1]))
  }

  ghost function StateAfter(required: int, n: nat, run: seq<Action>): State
    requires IsRun(required, n, run)
    decreases |run|, 1
  {
    if run == [] then Start(n)
    else var init := run[..|run| - 1]; Step(required, StateAfter(required, n, init), run[|run| - 1])
  }

  function Rank(stage: Stage): nat {
    match stage
    case Unborn => 9 case Executing => 8 case Wanting => 7 case Counting => 6 case Checking => 5
    case Selecting => 4 case Closing => 3 case Unlocking => 2 case Leaving => 1 case Gone => 0
  }

  function WaiterRank(w: Waiter): nat {
    match w
    case Absent => 4 case Waiting => 3 case AtSelect => 2 case AtClose => 1 case Over => 0
  }

  function TotalRank(workers: seq<Worker>): nat {
    if workers == [] then 0 else TotalRank(workers[..|workers| - 1]) + Rank(workers[|workers| - 1].stage)
  }

  /** How many steps are left at most. */
  function StepsLeft(s: State): nat {
    TotalRank(s.workers) + WaiterRank(s.waiter) +
    match s.caller
    case Spawning(next) => if next <= |s.workers| then |s.workers| - next + 2 else 0
    case Blocked => 1
    case Returned(_) => 0
  }

  lemma {:induction false} TotalRankUpdate(workers: seq<Worker>, i: nat, w: Worker)
    requires i < |workers|
    ensures TotalRank(workers[i := w]) == TotalRank(workers) - Rank(workers[i].stage) + Rank(w.stage)
  {
    var last := |workers| - 1;
    if i == last {
      assert workers[i := w][..last] == workers[..last];
    } else {
      assert workers[i := w][..last] == workers[..last][i := w];
      TotalRankUpdate(workers[..last], i, w);
    }
  }

  lemma WorkProgresses(required: int, s: State, i: nat)
    requires Enabled(s, Work(i))
    ensures StepsLeft(WorkerStep(required, s, i)) < StepsLeft(s)
  {
    var s' := WorkerStep(required, s, i);
    TotalRankUpdate(s.workers, i, s'.workers[i]);
    assert s'.workers == s.workers[i := s'.workers[i]];
  }

  /** Every step brings the end nearer. */
  lemma StepProgresses(required: int, s: State, a: Action)
    requires Spawned(s) && Enabled(s, a)
    ensures StepsLeft(Step(required, s, a)) < StepsLeft(s)
  {
    match a
    case Call =>
      if s.caller.Spawning? && s.caller.next < |s.workers| {
        TotalRankUpdate(s.workers, s.caller.next, Worker(Executing, s.workers[s.caller.next].outcome));
      }
    case Execute(i, outcome) => TotalRankUpdate(s.workers, i, Worker(Wanting, outcome));
    case Work(i) => WorkProgresses(required, s, i);
    case Wait =>
  }

  lemma {:induction false} StartRank(workers: seq<Worker>)
    requires forall i :: 0 <= i < |workers| ==> workers[i].stage == Unborn
    ensures TotalRank(workers) == 9 * |workers|
  {
    if workers == [] {
    } else {
      StartRank(workers[..|workers| - 1]);
    }
  }

  ghost predicate Within(required: int, n: nat, steps: nat, s: State) {
    Inv(required, s) && |s.workers| == n && steps + StepsLeft(s) <= 10 * n + 6
  }

  lemma StartWithin(required: int, n: nat)
    ensures Within(required, n, 0, Start(n))
  {
    StartKeepsInv(required, n);
    StartRank(Start(n).workers);
  }

  lemma StepWithin(required: int, n: nat, steps: nat, s: State, a: Action)
    requires Within(required, n, steps, s) && Enabled(s, a)
    ensures Within(required, n, steps + 1, Step(required, s, a))
  {
    StepKeepsInv(required, s, a);
    StepProgresses(required, s, a);
    StepKeepsSize(required, s, a);
  }

  lemma StepKeepsSize(required: int, s: State, a: Action)
    requires Enabled(s, a)
    ensures |Step(required, s, a).workers| == |s.workers|
  {
  }

  lemma {:induction false} RunKeepsInv(required: int, n: nat, run: seq<Action>)
    requires IsRun(required, n, run)
    ensures Within(required, n, |run|, StateAfter(required, n, run))
  {
    if run == [] {
      StartWithin(required, n);
    } else {
      var init := run[..|run| - 1];
      RunKeepsInv(required, n, init);
      StepWithin(required, n, |init|, StateAfter(required, n, init), run[|run| - 1]);
    }
  }

  /** Nothing can move except operations that have not returned yet. */
  ghost predicate Quiet(s: State) { forall a :: Enabled(s, a) ==> a.Execute? }

  lemma QuietWorkers(required: int, s: State)
    requires Inv(required, s) && Quiet(s)
    ensures !s.caller.Spawning? && s.lock == Free
    ensures forall i: nat :: i < |s.workers| ==> s.workers[i].stage == Executing || s.workers[i].stage == Gone
  {
    assert !Enabled(s, Call);
    if s.lock.Held? { assert Enabled(s, Work(s.lock.holder)); }
    forall i: nat | i < |s.workers|
      ensures s.workers[i].stage == Executing || s.workers[i].stage == Gone
    {
      assert !Enabled(s, Work(i));
    }
  }

  /** When all workers are gone and nothing moves, the waiter is over and so the channel is closed. */
  lemma QuietWaiter(required: int, s: State)
    requires Inv(required, s) && Quiet(s) && AllGone(s)
    ensures s.waiter == Over
  {
    QuietWorkers(required, s);
    assert !Enabled(s, Wait);
    assert Where(s.workers, Running) == {};
  }

  /**
   * There is no deadlock: once nothing moves, the caller has returned exactly when enough
   * operations succeeded or all are done, and in the end everything is over and was closed once.
   */
  lemma QuietMeansDone(required: int, s: State)
    requires Inv(required, s) && Quiet(s)
    ensures s.caller.Returned? <==> (s.successCount >= required && SomeCounted(s)) || AllGone(s)
    ensures AllGone(s) ==> s.waiter == Over && s.closes == 1 && s.caller.Returned?
  {
    QuietWorkers(required, s);
    assert !Enabled(s, Call);
    if AllGone(s) { QuietWaiter(required, s); }
  }

  /** What holds in every interleaving of an execution of `n` operations. */
  lemma EveryInterleaving(required: int, n: nat, run: seq<Action>)
    requires IsRun(required, n, run)
    ensures |run| <= 10 * n + 6
    ensures var s := StateAfter(required, n, run);
            && s.closes <= 1
            && (s.caller.Returned? ==> ReportHolds(required, s, s.caller.result))
            && (s.caller.Returned? && s.caller.result.success ==> required <= |Where(s.workers, Succeeded)|)
            && (s.caller.Returned? && !s.caller.result.success ==> AllGone(s) && |Where(s.workers, Succeeded)| < required)
            && (Quiet(s) ==> (s.caller.Returned? <==> (required <= |Where(s.workers, Succeeded)| && SomeCounted(s)) || AllGone(s)))
            && (Quiet(s) && AllGone(s) ==> s.closes == 1 && s.waiter == Over)
  {
    RunKeepsInv(required, n, run);
    var s := StateAfter(required, n, run);
    if Quiet(s) { QuietMeansDone(required, s); }
  }

  // ------------------------------------------------------------------- overlap

  /** Whether write and read quorums are configured to overlap. */
  predicate ValidateQuorum(c: Q.Config) { c.writeQuorum + c.readQuorum > c.replicationFactor }

  /** The nodes whose operations have succeeded, operation `i` being on `nodes[i]`. */
  ghost function SucceededNodes(nodes: seq<Node>, s: State): set<Node>
    requires |s.workers| == |nodes|
  {
    set i | i in Where(s.workers, Succeeded) :: nodes[i]
  }

  /** On distinct nodes there are as many of them as successes. */
  lemma {:induction false} ImageSize(nodes: seq<Node>, indices: set<nat>)
    requires NoRepeats(nodes) && forall i :: i in indices ==> i < |nodes|
    ensures |set i | i in indices :: nodes[i]| == |indices|
  {
    if indices != {} {
      var i :| i in indices;
      var rest := indices - {i};
      ImageSize(nodes, rest);
      NoRepeatsMeans(nodes);
      assert nodes[i] !in set j | j in rest :: nodes[j];
      assert (set j | j in indices :: nodes[j]) == (set j | j in rest :: nodes[j]) + {nodes[i]};
    }
  }

  /** The caller is about to return success. */
  ghost predicate Succeeding(required: int, nodes: seq<Node>, s: State) {
    && |s.workers| == |nodes| && Inv(required, s)
    && Enabled(s, Call) && s.caller == Blocked && CallerStep(required, s).caller.result.success
  }

  lemma EnoughNodes(required: int, nodes: seq<Node>, s: State)
    requires NoRepeats(nodes) && Succeeding(required, nodes, s)
    ensures required <= |SucceededNodes(nodes, s)|
    ensures SucceededNodes(nodes, s) <= Members(nodes)
  {
    ImageSize(nodes, Where(s.workers, Succeeded));
  }

  /**
   * A read that succeeds shares a node with every write that succeeded on the same at most N nodes,
   * and returns something at least as new as what that node answered.
   */
  lemma QuorumsOverlap(c: Q.Config, write: Q.Level, read: Q.Level, writeNodes: seq<Node>, readNodes: seq<Node>, ws: State, rs: State)
    requires NoRepeats(writeNodes) && NoRepeats(readNodes)
    requires |Members(writeNodes) + Members(readNodes)| <= c.replicationFactor
    requires Q.WriteNeeds(c, write) + Q.ReadNeeds(c, read) > c.replicationFactor
    requires Succeeding(Q.WriteNeeds(c, write), writeNodes, ws)
    requires Succeeding(Q.ReadNeeds(c, read), readNodes, rs)
    ensures exists i: nat ::
              && i < |readNodes| && Succeeded(rs.workers[i]) && readNodes[i] in SucceededNodes(writeNodes, ws)
              && NoOlder(rs.workers[i].outcome.entry, CallerStep(Q.ReadNeeds(c, read), rs).caller.result.latest)
  {
    EnoughNodes(Q.WriteNeeds(c, write), writeNodes, ws);
    EnoughNodes(Q.ReadNeeds(c, read), readNodes, rs);
    var wrote, heard := SucceededNodes(writeNodes, ws), SucceededNodes(readNodes, rs);
    var n := Pigeonhole(wrote, heard, Members(writeNodes) + Members(readNodes), c.replicationFactor);
    var i :| i in Where(rs.workers, Succeeded) && readNodes[i] == n;
    LatestIsNewest(rs.entries, rs.workers[i].outcome.entry);
  }

  predicate NoOlder(e: Copy, latest: Latest) { latest.LatestEntry? && e.timestamp <= latest.copy.timestamp }

  lemma LatestIsNewest(entries: seq<Copy>, e: Copy)
    requires e in entries
    ensures NoOlder(e, LatestOf(entries))
  {
  }

  // without overlap there are successful executions on disjoint nodes

  ghost predicate Reachable(required: int, n: nat, s: State) { exists run :: RunsTo(required, n, run, s) }

  ghost predicate RunsTo(required: int, n: nat, run: seq<Action>, s: State) {
    IsRun(required, n, run) && StateAfter(required, n, run) == s
  }

  lemma StepReachable(required: int, n: nat, s: State, a: Action)
    requires Reachable(required, n, s) && Enabled(s, a)
    ensures Reachable(required, n, Step(required, s, a))
  {
    var run :| RunsTo(required, n, run, s);
    assert (run + [a])[..|run|] == run;
    assert RunsTo(required, n, run + [a], Step(required, s, a));
  }

  function SpawnedState(n: nat, k: nat): State
    requires k <= n
  {
    Start(n).(workers := seq(n, i => Worker(if i < k then Executing else Unborn, Failed)), pending := k, caller := Spawning(k))
  }

  lemma {:induction false} SpawnReaches(required: int, n: nat, k: nat)
    requires k <= n
    ensures Reachable(required, n, SpawnedState(n, k))
  {
    if k == 0 {
      assert SpawnedState(n, 0) == Start(n);
      assert RunsTo(required, n, [], Start(n));
    } else {
      SpawnReaches(required, n, k - 1);
      StepReachable(required, n, SpawnedState(n, k - 1), Call);
      assert Step(required, SpawnedState(n, k - 1), Call) == SpawnedState(n, k);
    }
  }

  const SAMPLE := Q.Copy([], 0)

  /** Worker `i` runs to its end, or, if it is the one that completes the quorum, until it closed the channel. */
  lemma OneSucceeds(required: int, n: nat, s: State, i: nat) returns (s': State)
    requires Reachable(required, n, s) && i < |s.workers| && s.workers[i].stage == Executing
    requires s.lock == Free && s.closes == 0
    ensures Reachable(required, n, s')
    ensures s'.successCount == s.successCount + 1 && s'.caller == s.caller
    ensures |s'.workers| == |s.workers| && Succeeded(s'.workers[i])
    ensures forall j :: 0 <= j < |s.workers| && j != i ==> s'.workers[j] == s.workers[j]
    ensures s'.lock == Free
    ensures s'.closes == if s.successCount + 1 >= required then 1 else 0
  {
    s' := s;
    StepReachable(required, n, s', Execute(i, Found(SAMPLE)));
    s' := Step(required, s', Execute(i, Found(SAMPLE)));
    s' := WorkReaches(required, n, s', i);
    s' := WorkReaches(required, n, s', i);
    s' := WorkReaches(required, n, s', i);
    if s.successCount + 1 >= required {
      s' := WorkReaches(required, n, s', i);
      s' := WorkReaches(required, n, s', i);
    }
    s' := WorkReaches(required, n, s', i);
  }

  lemma WorkReaches(required: int, n: nat, s: State, i: nat) returns (s': State)
    requires Reachable(required, n, s) && Enabled(s, Work(i))
    ensures s' == WorkerStep(required, s, i) && Reachable(required, n, s')
  {
    StepReachable(required, n, s, Work(i));
    s' := WorkerStep(required, s, i);
  }

  /** A state in which exactly the `k` operations from `lo` have succeeded and nothing else was counted. */
  ghost predicate OnlyThese(required: int, n: nat, lo: nat, k: nat, s: State) {
    && Reachable(required, n, s) && |s.workers| == n && s.lock == Free && s.caller == Blocked
    && s.successCount == k && s.closes == (if k >= required then 1 else 0)
    && forall i: nat :: i < n ==> if lo <= i < lo + k then Succeeded(s.workers[i]) else s.workers[i].stage == Executing
  }

  lemma {:induction false} TheseSucceed(required: int, n: nat, lo: nat, k: nat) returns (s: State)
    requires lo + k <= n && k <= required && 1 <= required
    ensures OnlyThese(required, n, lo, k, s)
  {
    if k == 0 {
      SpawnReaches(required, n, n);
      StepReachable(required, n, SpawnedState(n, n), Call);
      s := Step(required, SpawnedState(n, n), Call);
    } else {
      s := TheseSucceed(required, n, lo, k - 1);
      s := OneSucceeds(required, n, s, lo + k - 1);
    }
  }

  lemma OnlyTheseNodes(required: int, nodes: seq<Node>, lo: nat, k: nat, s: State)
    requires lo + k <= |nodes| && OnlyThese(required, |nodes|, lo, k, s)
    ensures SucceededNodes(nodes, s) <= Members(nodes[lo..lo + k])
  {
    forall m | m in SucceededNodes(nodes, s)
      ensures m in nodes[lo..lo + k]
    {
      var i :| i in Where(s.workers, Succeeded) && nodes[i] == m;
      assert lo <= i < lo + k;
      assert nodes[lo..lo + k][i - lo] == m;
    }
  }

  lemma ReachableKeepsInv(required: int, n: nat, s: State)
    requires Reachable(required, n, s)
    ensures Inv(required, s) && |s.workers| == n
  {
    var run :| RunsTo(required, n, run, s);
    RunKeepsInv(required, n, run);
  }

  lemma TheseReturn(required: int, nodes: seq<Node>, lo: nat) returns (s: State)
    requires 1 <= required && lo + required <= |nodes|
    ensures Reachable(required, |nodes|, s) && Succeeding(required, nodes, s)
    ensures SucceededNodes(nodes, s) <= Members(nodes[lo..lo + required])
  {
    s := TheseSucceed(required, |nodes|, lo, required);
    ReachableKeepsInv(required, |nodes|, s);
    OnlyTheseNodes(required, nodes, lo, required, s);
  }

  lemma SlicesDisjoint(nodes: seq<Node>, i: nat, j: nat)
    requires NoRepeats(nodes) && i + j <= |nodes|
    ensures Members(nodes[0..i]) * Members(nodes[i..i + j]) == {}
  {
    forall m | m in Members(nodes[0..i])
      ensures m !in Members(nodes[i..i + j])
    {
      var p :| 0 <= p < i && nodes[0..i][p] == m;
      if m in Members(nodes[i..i + j]) {
        var q :| 0 <= q < j && nodes[i..i + j][q] == m;
        assert nodes[p] == nodes[i + q];
        NoRepeatsMeans(nodes);
      }
    }
  }

  lemma DisjointSubsets(a: set<Node>, b: set<Node>, a': set<Node>, b': set<Node>)
    requires a <= a' && b <= b' && a' * b' == {}
    ensures a * b == {}
  {
    assert a * b <= a' * b';
  }

  /** Every two successful executions on the nodes share one on which both succeeded. */
  ghost predicate AlwaysOverlap(c: Q.Config, nodes: seq<Node>) {
    forall ws, rs ::
      && Reachable(c.writeQuorum, |nodes|, ws) && Succeeding(c.writeQuorum, nodes, ws)
      && Reachable(c.readQuorum, |nodes|, rs) && Succeeding(c.readQuorum, nodes, rs)
      ==> SucceededNodes(nodes, ws) * SucceededNodes(nodes, rs) != {}
  }

  lemma DisjointQuorums(c: Q.Config, nodes: seq<Node>)
    requires Q.ValidConfig(c) && NoRepeats(nodes) && |nodes| == c.replicationFactor && !ValidateQuorum(c)
    ensures !AlwaysOverlap(c, nodes)
  {
    var w, r := c.writeQuorum, c.readQuorum;
    var ws := TheseReturn(w, nodes, 0);
    var rs := TheseReturn(r, nodes, w);
    SlicesDisjoint(nodes, w, r);
    DisjointSubsets(SucceededNodes(nodes, ws), SucceededNodes(nodes, rs), Members(nodes[0..w]), Members(nodes[w..w + r]));
  }

  lemma ValidQuorumsMeet(c: Q.Config, nodes: seq<Node>, ws: State, rs: State)
    requires NoRepeats(nodes) && |nodes| == c.replicationFactor && ValidateQuorum(c)
    requires Succeeding(c.writeQuorum, nodes, ws) && Succeeding(c.readQuorum, nodes, rs)
    ensures SucceededNodes(nodes, ws) * SucceededNodes(nodes, rs) != {}
  {
    EnoughNodes(c.writeQuorum, nodes, ws);
    EnoughNodes(c.readQuorum, nodes, rs);
    MembersSize(nodes);
    var n := Pigeonhole(SucceededNodes(nodes, ws), SucceededNodes(nodes, rs), Members(nodes), c.replicationFactor);
    assert n in SucceededNodes(nodes, ws) * SucceededNodes(nodes, rs);
  }

  /** The validation says exactly whether successful writes and reads always overlap. */
  lemma ValidatedMeansOverlap(c: Q.Config, nodes: seq<Node>)
    requires Q.ValidConfig(c) && NoRepeats(nodes) && |nodes| == c.replicationFactor
    ensures ValidateQuorum(c) <==> AlwaysOverlap(c, nodes)
  {
    if ValidateQuorum(c) {
      forall ws, rs | && Reachable(c.writeQuorum, |nodes|, ws) && Succeeding(c.writeQuorum, nodes, ws)
                      && Reachable(c.readQuorum, |nodes|, rs) && Succeeding(c.readQuorum, nodes, rs)
        ensures SucceededNodes(nodes, ws) * SucceededNodes(nodes, rs) != {}
      {
        ValidQuorumsMeet(c, nodes, ws, rs);
      }
    } else {
      DisjointQuorums(c, nodes);
    }
  }
}
