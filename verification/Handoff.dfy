/** Hinted handoff: bounded queues of writes kept for unreachable nodes, and their delivery. */
module Handoff {
  import opened Sequences
  import opened Types
  import Q = Quorum

  datatype Hint = Hint(target: Node, key: string, copy: Q.Copy, createdAt: int, attempts: nat)

  type Hints = map<Node, seq<Hint>>

  // --------------------------------------------------------------------- queues

  function QueueOf(hints: Hints, target: Node): seq<Hint> { if target in hints then hints[target] else [] }

  /** An empty queue is deleted. */
  function SetQueue(hints: Hints, target: Node, q: seq<Hint>): Hints {
    if q == [] then hints - {target} else hints[target := q]
  }

  function Stored(q: seq<Hint>, h: Hint, maxSize: int): seq<Hint>
    requires |q| >= maxSize ==> q != []
  {
    (if |q| >= maxSize then q[1..] else q) + [h]
  }

  function WithoutKey(q: seq<Hint>, key: string): seq<Hint> {
    if q == [] then []
    else
      var h, rest := q[|q| - 1], WithoutKey(q[..|q| - 1], key);
      if h.key != key then rest + [h] else rest
  }

  predicate Fits(h: Hint, now: int, maxAge: int) { now - h.createdAt < maxAge }

  function Unexpired(q: seq<Hint>, now: int, maxAge: int): seq<Hint> {
    if q == [] then []
    else
      var h, rest := q[|q| - 1], Unexpired(q[..|q| - 1], now, maxAge);
      if Fits(h, now, maxAge) then rest + [h] else rest
  }

  /** Where the first hint with the key is, or the length of the queue. */
  function FirstWith(q: seq<Hint>, key: string): (i: nat)
    ensures i <= |q| && (i < |q| ==> q[i].key == key)
    ensures forall j :: 0 <= j < i ==> q[j].key != key
  {
    if q == [] then 0
    else
      var i := FirstWith(q[..|q| - 1], key);
      if i < |q| - 1 || q[|q| - 1].key == key then i else |q|
  }

  /** One more attempt for the first hint with the key. */
  function Bumped(q: seq<Hint>, key: string): seq<Hint> {
    var i := FirstWith(q, key);
    if i < |q| then q[i := q[i].(attempts := q[i].attempts + 1)] else q
  }

  function Bump(hints: Hints, target: Node, key: string): Hints {
    if target in hints then hints[target := Bumped(hints[target], key)] else hints
  }

  function RemoveKey(hints: Hints, target: Node, key: string): Hints {
    SetQueue(hints, target, WithoutKey(QueueOf(hints, target), key))
  }

  function CleanedUp(hints: Hints, now: int, maxAge: int): Hints {
    map t | t in hints && Unexpired(hints[t], now, maxAge) != [] :: Unexpired(hints[t], now, maxAge)
  }

  // -------------------------------------------------------------- order of hints

  /** Equal but for the attempts. */
  predicate Same(a: Hint, b: Hint) { a.(attempts := 0) == b.(attempts := 0) }

  /** The queue is what is left of the log, in the log's order. */
  predicate Subsequence(q: seq<Hint>, log: seq<Hint>) {
    if q == [] then true
    else if log == [] then false
    else
      || (Same(q[|q| - 1], log[|log| - 1]) && Subsequence(q[..|q| - 1], log[..|log| - 1]))
      || Subsequence(q, log[..|log| - 1])
  }

  lemma SubsequenceGrows(q: seq<Hint>, log: seq<Hint>, h: Hint)
    requires Subsequence(q, log)
    ensures Subsequence(q + [h], log + [h]) && Subsequence(q, log + [h])
  {
    assert (q + [h])[..|q|] == q && (log + [h])[..|log|] == log;
  }

  lemma SubsequenceKeepsOrDrops(q: seq<Hint>, log: seq<Hint>)
    requires log != [] && Subsequence(q, log[..|log| - 1])
    ensures Subsequence(q + [log[|log| - 1]], log) && Subsequence(q, log)
  {
    SubsequenceGrows(q, log[..|log| - 1], log[|log| - 1]);
    assert log[..|log| - 1] + [log[|log| - 1]] == log;
  }

  lemma {:induction false} SubsequenceTransitive(a: seq<Hint>, b: seq<Hint>, c: seq<Hint>)
    requires Subsequence(a, b) && Subsequence(b, c)
    ensures Subsequence(a, c)
    decreases |b| + |c|
  {
    if a == [] {
    } else {
      var a', b', c' := a[..|a| - 1], b[..|b| - 1], c[..|c| - 1];
      if Subsequence(b, c') {
        SubsequenceTransitive(a, b, c');
      } else if Subsequence(a, b') {
        SubsequenceTransitive(a, b', c');
      } else {
        SubsequenceTransitive(a', b', c');
      }
    }
  }

  lemma {:induction false} PointwiseSame(a: seq<Hint>, b: seq<Hint>)
    requires |a| == |b| && forall i :: 0 <= i < |a| ==> Same(a[i], b[i])
    ensures Subsequence(a, b)
  {
    if a == [] {
    } else {
      PointwiseSame(a[..|a| - 1], b[..|b| - 1]);
    }
  }

  lemma {:induction false} TailIsSubsequence(q: seq<Hint>)
    requires q != []
    ensures Subsequence(q[1..], q)
  {
    if |q| > 1 {
      var init := q[..|q| - 1];
      TailIsSubsequence(init);
      SubsequenceGrows(init[1..], init, q[|q| - 1]);
      assert init[1..] + [q[|q| - 1]] == q[1..] && init + [q[|q| - 1]] == q;
    }
  }

  lemma {:induction false} WithoutKeyIsSubsequence(q: seq<Hint>, key: string)
    ensures Subsequence(WithoutKey(q, key), q)
  {
    if q == [] {
    } else {
      var init := q[..|q| - 1];
      WithoutKeyIsSubsequence(init, key);
      SubsequenceKeepsOrDrops(WithoutKey(init, key), q);
    }
  }

  lemma {:induction false} UnexpiredIsSubsequence(q: seq<Hint>, now: int, maxAge: int)
    ensures Subsequence(Unexpired(q, now, maxAge), q)
  {
    if q == [] {
    } else {
      var init := q[..|q| - 1];
      UnexpiredIsSubsequence(init, now, maxAge);
      SubsequenceKeepsOrDrops(Unexpired(init, now, maxAge), q);
    }
  }

  lemma BumpedIsSubsequence(q: seq<Hint>, key: string)
    ensures Subsequence(Bumped(q, key), q)
  {
    PointwiseSame(Bumped(q, key), q);
  }

  /** Creation times do not decrease along the queue. */
  predicate Ordered(q: seq<Hint>) {
    q == [] || (Ordered(q[..|q| - 1]) && forall h :: h in q[..|q| - 1] ==> h.createdAt <= q[|q| - 1].createdAt)
  }

  lemma {:induction false} SubsequenceMembers(q: seq<Hint>, log: seq<Hint>, h: Hint) returns (g: Hint)
    requires Subsequence(q, log) && h in q
    ensures g in log && Same(h, g)
  {
    var q', log' := q[..|q| - 1], log[..|log| - 1];
    if Subsequence(q, log') {
      g := SubsequenceMembers(q, log', h);
    } else if h == q[|q| - 1] {
      g := log[|log| - 1];
    } else {
      g := SubsequenceMembers(q', log', h);
    }
  }

  lemma {:induction false} SubsequenceOrdered(q: seq<Hint>, log: seq<Hint>)
    requires Subsequence(q, log) && Ordered(log)
    ensures Ordered(q) && |q| <= |log|
  {
    if q == [] {
    } else {
      var q', log' := q[..|q| - 1], log[..|log| - 1];
      if Subsequence(q, log') {
        SubsequenceOrdered(q, log');
      } else {
        SubsequenceOrdered(q', log');
        forall h | h in q'
          ensures h.createdAt <= q[|q| - 1].createdAt
        {
          var g := SubsequenceMembers(q', log', h);
        }
      }
    }
  }

  /** From index `k` on, and only there, hints are young enough. */
  predicate FitFrom(q: seq<Hint>, now: int, maxAge: int, k: nat) {
    k <= |q| && forall i :: 0 <= i < |q| ==> (k <= i <==> Fits(q[i], now, maxAge))
  }

  lemma FitFromSnoc(init: seq<Hint>, last: Hint, now: int, maxAge: int, k: nat)
    requires FitFrom(init, now, maxAge, k) && forall h :: h in init ==> h.createdAt <= last.createdAt
    ensures Fits(last, now, maxAge) ==> FitFrom(init + [last], now, maxAge, k)
    ensures !Fits(last, now, maxAge) ==> k == |init| && FitFrom(init + [last], now, maxAge, |init| + 1)
  {
    if k < |init| { assert init[k] in init; }
  }

  /** Expiry drops exactly the expired prefix of an ordered queue. */
  lemma {:induction false} ExpiryDropsPrefix(q: seq<Hint>, now: int, maxAge: int) returns (k: nat)
    requires Ordered(q)
    ensures FitFrom(q, now, maxAge, k) && Unexpired(q, now, maxAge) == q[k..]
  {
    if q == [] {
      k := 0;
    } else {
      var init, last := q[..|q| - 1], q[|q| - 1];
      k := ExpiryDropsPrefix(init, now, maxAge);
      FitFromSnoc(init, last, now, maxAge, k);
      assert init + [last] == q;
      if Fits(last, now, maxAge) {
        assert init[k..] + [last] == q[k..];
      } else {
        k := |q|;
      }
    }
  }

  // ---------------------------------------------------------------------- steps

  datatype Limits = Limits(maxAge: int, maxSize: int)

  /** What the delivery loop is doing: the hints it copied and has still to send to a live target. */
  datatype Phase = Resting | Delivering(target: Node, rest: seq<Hint>) | GivingUp(target: Node, rest: seq<Hint>)

  /** The log holds every hint ever stored for each target. */
  datatype State = State(hints: Hints, phase: Phase, now: int, log: Hints)

  datatype Action =
    | Store(target: Node, key: string, copy: Q.Copy, at: int)
    | Cleanup(at: int)
    | StartTarget(target: Node)
    | Accept
    | Refuse
    | GiveUp
    | EndTarget

  predicate Enabled(l: Limits, s: State, a: Action) {
    match a
    case Store(t, _, _, at) => s.now <= at && (|QueueOf(s.hints, t)| >= l.maxSize ==> QueueOf(s.hints, t) != [])
    case Cleanup(at) => s.now <= at
    case StartTarget(_) => s.phase.Resting?
    case Accept => s.phase.Delivering? && s.phase.rest != []
    case Refuse => s.phase.Delivering? && s.phase.rest != []
    case GiveUp => s.phase.GivingUp? && s.phase.rest != []
    case EndTarget => s.phase.Delivering? && s.phase.rest == []
  }

  /** More attempts than this in the copied hint and the target is given up. */
  const PATIENCE := 10

  function Step(l: Limits, s: State, a: Action): State
    requires Enabled(l, s, a)
  {
    match a
    case Store(t, key, copy, at) =>
      var h := Hint(t, key, copy, at, 0);
      s.(hints := s.hints[t := Stored(QueueOf(s.hints, t), h, l.maxSize)], now := at, log := s.log[t := QueueOf(s.log, t) + [h]])
    case Cleanup(at) => s.(hints := CleanedUp(s.hints, at, l.maxAge), now := at)
    case StartTarget(t) => s.(phase := Delivering(t, QueueOf(s.hints, t)))
    case Accept => s.(hints := RemoveKey(s.hints, s.phase.target, s.phase.rest[0].key), phase := Delivering(s.phase.target, s.phase.rest[1..]))
    case Refuse =>
      s.(hints := Bump(s.hints, s.phase.target, s.phase.rest[0].key),
         phase := if s.phase.rest[0].attempts > PATIENCE then GivingUp(s.phase.target, s.phase.rest)
                  else Delivering(s.phase.target, s.phase.rest[1..]))
    case GiveUp => s.(hints := RemoveKey(s.hints, s.phase.target, s.phase.rest[0].key), phase := Delivering(s.phase.target, s.phase.rest[1..]))
    case EndTarget => s.(phase := Resting)
  }

  // ------------------------------------------------------------------ invariant

  ghost predicate LogOk(t: Node, log: seq<Hint>, now: int) {
    Ordered(log) && forall h :: h in log ==> h.target == t && h.createdAt <= now
  }

  ghost predicate QueueOk(q: seq<Hint>, log: seq<Hint>, maxSize: int) {
    0 < |q| <= maxSize && Subsequence(q, log)
  }

  ghost predicate Inv(l: Limits, s: State) {
    && (forall t :: t in s.log ==> LogOk(t, s.log[t], s.now))
    && (forall t :: t in s.hints ==> t in s.log && QueueOk(s.hints[t], s.log[t], l.maxSize))
    && GivesUpLate(s)
  }

  predicate GivesUpLate(s: State) { s.phase.GivingUp? ==> s.phase.rest != [] && s.phase.rest[0].attempts > PATIENCE }

  /** A queue thinned out without becoming empty is still in order and within its size. */
  lemma ThinnedOk(q: seq<Hint>, q': seq<Hint>, log: seq<Hint>, maxSize: int)
    requires QueueOk(q, log, maxSize) && Subsequence(q', q) && q' != []
    ensures QueueOk(q', log, maxSize)
  {
    SubsequenceTransitive(q', q, log);
    SubsequenceSize(q', q);
  }

  lemma {:induction false} SubsequenceSize(q: seq<Hint>, log: seq<Hint>)
    requires Subsequence(q, log)
    ensures |q| <= |log|
  {
    if q == [] {
    } else {
      if Subsequence(q, log[..|log| - 1]) { SubsequenceSize(q, log[..|log| - 1]); } else { SubsequenceSize(q[..|q| - 1], log[..|log| - 1]); }
    }
  }

  lemma StoredOk(q: seq<Hint>, log: seq<Hint>, h: Hint, maxSize: int)
    requires 1 <= maxSize && |q| <= maxSize && Subsequence(q, log)
    ensures QueueOk(Stored(q, h, maxSize), log + [h], maxSize)
  {
    if |q| >= maxSize {
      TailIsSubsequence(q);
      SubsequenceTransitive(q[1..], q, log);
      SubsequenceGrows(q[1..], log, h);
    } else {
      SubsequenceGrows(q, log, h);
    }
  }

  lemma LoggedOk(t: Node, log: seq<Hint>, now: int, h: Hint)
    requires LogOk(t, log, now) && h.target == t && now <= h.createdAt
    ensures LogOk(t, log + [h], h.createdAt)
  {
    assert (log + [h])[..|log|] == log;
  }

  lemma LaterLogOk(t: Node, log: seq<Hint>, now: int, later: int)
    requires LogOk(t, log, now) && now <= later
    ensures LogOk(t, log, later)
  {
  }

  lemma StoreKeepsInv(l: Limits, s: State, a: Action)
    requires Inv(l, s) && a.Store? && Enabled(l, s, a)
    ensures Inv(l, Step(l, s, a))
  {
    var s' := Step(l, s, a);
    var h := Hint(a.target, a.key, a.copy, a.at, 0);
    StoredOk(QueueOf(s.hints, a.target), QueueOf(s.log, a.target), h, l.maxSize);
    LoggedOk(a.target, QueueOf(s.log, a.target), s.now, h);
    forall t | t in s'.log
      ensures LogOk(t, s'.log[t], s'.now)
    {
      if t != a.target { LaterLogOk(t, s.log[t], s.now, a.at); }
    }
    forall t | t in s'.hints
      ensures t in s'.log && QueueOk(s'.hints[t], s'.log[t], l.maxSize)
    {
      if t != a.target { assert t in s.hints; }
    }
  }

  lemma CleanupKeepsInv(l: Limits, s: State, at: int)
    requires Inv(l, s) && s.now <= at
    ensures Inv(l, Step(l, s, Cleanup(at)))
  {
    var s' := Step(l, s, Cleanup(at));
    forall t | t in s'.hints
      ensures QueueOk(s'.hints[t], s.log[t], l.maxSize)
    {
      UnexpiredIsSubsequence(s.hints[t], at, l.maxAge);
      ThinnedOk(s.hints[t], s'.hints[t], s.log[t], l.maxSize);
    }
  }

  lemma RemoveKeepsQueues(l: Limits, s: State, t: Node, key: string)
    requires Inv(l, s)
    ensures forall u :: u in RemoveKey(s.hints, t, key) ==> u in s.log && QueueOk(RemoveKey(s.hints, t, key)[u], s.log[u], l.maxSize)
  {
    if t in s.hints && WithoutKey(s.hints[t], key) != [] {
      WithoutKeyIsSubsequence(s.hints[t], key);
      ThinnedOk(s.hints[t], WithoutKey(s.hints[t], key), s.log[t], l.maxSize);
    }
  }

  lemma BumpKeepsQueues(l: Limits, s: State, t: Node, key: string)
    requires Inv(l, s)
    ensures forall u :: u in Bump(s.hints, t, key) ==> u in s.log && QueueOk(Bump(s.hints, t, key)[u], s.log[u], l.maxSize)
  {
    if t in s.hints {
      BumpedIsSubsequence(s.hints[t], key);
      ThinnedOk(s.hints[t], Bumped(s.hints[t], key), s.log[t], l.maxSize);
    }
  }

  lemma StepKeepsInv(l: Limits, s: State, a: Action)
    requires Inv(l, s) && Enabled(l, s, a)
    ensures Inv(l, Step(l, s, a))
  {
    match a
    case Store(_, _, _, _) => StoreKeepsInv(l, s, a);
    case Cleanup(at) => CleanupKeepsInv(l, s, at);
    case StartTarget(_) =>
    case Accept => RemoveKeepsQueues(l, s, s.phase.target, s.phase.rest[0].key);
    case Refuse => BumpKeepsQueues(l, s, s.phase.target, s.phase.rest[0].key);
    case GiveUp => RemoveKeepsQueues(l, s, s.phase.target, s.phase.rest[0].key);
    case EndTarget =>
  }

  // ------------------------------------------------------------- how hints leave

  /** The only ways out of the queue of target `t`. */
  predicate LeavesBy(l: Limits, s: State, a: Action, t: Node, h: Hint) {
    match a
    case Store(u, _, _, _) => u == t && |QueueOf(s.hints, t)| >= l.maxSize && QueueOf(s.hints, t) != [] && h == QueueOf(s.hints, t)[0]
    case Cleanup(at) => !Fits(h, at, l.maxAge)
    case StartTarget(_) => false
    case Accept => s.phase.Delivering? && s.phase.target == t && s.phase.rest != [] && s.phase.rest[0].key == h.key
    case Refuse => false
    case GiveUp =>
      && s.phase.GivingUp? && s.phase.target == t && s.phase.rest != []
      && s.phase.rest[0].key == h.key && s.phase.rest[0].attempts > PATIENCE
    case EndTarget => false
  }

  ghost predicate StillIn(q: seq<Hint>, h: Hint) { exists g :: g in q && Same(h, g) }

  lemma {:induction false} WithoutKeyMembers(q: seq<Hint>, key: string, h: Hint)
    ensures h in WithoutKey(q, key) <==> h in q && h.key != key
  {
    if q == [] {
    } else {
      WithoutKeyMembers(q[..|q| - 1], key, h);
      assert q == q[..|q| - 1] + [q[|q| - 1]];
    }
  }

  lemma {:induction false} UnexpiredMembers(q: seq<Hint>, now: int, maxAge: int, h: Hint)
    ensures h in Unexpired(q, now, maxAge) <==> h in q && Fits(h, now, maxAge)
  {
    if q == [] {
    } else {
      UnexpiredMembers(q[..|q| - 1], now, maxAge, h);
      assert q == q[..|q| - 1] + [q[|q| - 1]];
    }
  }

  lemma BumpedMembers(q: seq<Hint>, key: string, h: Hint)
    requires h in q
    ensures StillIn(Bumped(q, key), h)
  {
    var i :| 0 <= i < |q| && q[i] == h;
    assert Same(h, Bumped(q, key)[i]);
  }

  lemma StoredMembers(q: seq<Hint>, n: Hint, maxSize: int, h: Hint)
    requires h in q && !(|q| >= maxSize && h == q[0])
    ensures StillIn(Stored(q, n, maxSize), h)
  {
    var i :| 0 <= i < |q| && q[i] == h;
    var r := Stored(q, n, maxSize);
    assert r[if |q| >= maxSize then i - 1 else i] == h;
    assert Same(h, h) && h in r;
  }

  /** A hint leaves its queue only by eviction, expiry, delivery or giving up, the last two for its own target and key. */
  lemma OnlyLeavesBy(l: Limits, s: State, a: Action, t: Node, h: Hint)
    requires GivesUpLate(s) && Enabled(l, s, a) && h in QueueOf(s.hints, t)
    ensures StillIn(QueueOf(Step(l, s, a).hints, t), h) || LeavesBy(l, s, a, t, h)
  {
    assert Same(h, h);
    var q := QueueOf(s.hints, t);
    match a
    case Store(u, key, copy, at) =>
      if u == t && !LeavesBy(l, s, a, t, h) { StoredMembers(q, Hint(t, key, copy, at, 0), l.maxSize, h); }
    case Cleanup(at) => UnexpiredMembers(q, at, l.maxAge, h);
    case StartTarget(_) =>
    case Accept => WithoutKeyMembers(q, s.phase.rest[0].key, h);
    case Refuse => BumpedMembers(q, s.phase.rest[0].key, h);
    case GiveUp => WithoutKeyMembers(q, s.phase.rest[0].key, h);
    case EndTarget =>
  }

  // ---------------------------------------------------------------------- giving up

  /** The attempts of the first hint with the key; negative when there is none. */
  function Attempts(q: seq<Hint>, key: string): int {
    var i := FirstWith(q, key);
    if i < |q| then q[i].attempts else -1
  }

  lemma AttemptsAt(q: seq<Hint>, key: string, i: nat)
    requires i < |q| && q[i].key == key && forall j :: 0 <= j < i ==> q[j].key != key
    ensures Attempts(q, key) == q[i].attempts
  {
  }

  lemma StoredAttempts(q: seq<Hint>, h: Hint, maxSize: int, key: string)
    requires Attempts(q, key) >= 0 && (|q| >= maxSize ==> q[0].key != key)
    ensures Attempts(Stored(q, h, maxSize), key) == Attempts(q, key)
  {
    var i := FirstWith(q, key);
    AttemptsAt(Stored(q, h, maxSize), key, if |q| >= maxSize then i - 1 else i);
  }

  lemma BumpedAttempts(q: seq<Hint>, bumped: string, key: string)
    requires Attempts(q, key) >= 0
    ensures Attempts(Bumped(q, bumped), key) == Attempts(q, key) + (if bumped == key then 1 else 0)
  {
    AttemptsAt(Bumped(q, bumped), key, FirstWith(q, key));
  }

  lemma {:induction false} WithoutOtherKey(q: seq<Hint>, removed: string, key: string)
    requires removed != key
    ensures Attempts(WithoutKey(q, removed), key) == Attempts(q, key)
  {
    if q == [] {
    } else {
      var init, last := q[..|q| - 1], q[|q| - 1];
      WithoutOtherKey(init, removed, key);
      AttemptsSnoc(init, last, key);
      AttemptsSnoc(WithoutKey(init, removed), last, key);
      assert init + [last] == q;
    }
  }

  lemma AttemptsSnoc(q: seq<Hint>, h: Hint, key: string)
    ensures Attempts(q + [h], key) == if Attempts(q, key) >= 0 then Attempts(q, key) else if h.key == key then h.attempts else -1
  {
    var i := FirstWith(q, key);
    if i < |q| { AttemptsAt(q + [h], key, i); } else if h.key == key { AttemptsAt(q + [h], key, i); }
  }

  lemma {:induction false} UnexpiredAttempts(q: seq<Hint>, now: int, maxAge: int, key: string)
    requires forall h :: h in q && h.key == key ==> Fits(h, now, maxAge)
    ensures Attempts(Unexpired(q, now, maxAge), key) == Attempts(q, key)
  {
    if q == [] {
    } else {
      var init, last := q[..|q| - 1], q[|q| - 1];
      UnexpiredAttempts(init, now, maxAge, key);
      AttemptsSnoc(init, last, key);
      AttemptsSnoc(Unexpired(init, now, maxAge), last, key);
      assert init + [last] == q;
    }
  }

  function Pending(s: State, t: Node, key: string): int { Attempts(QueueOf(s.hints, t), key) }

  /** The step neither evicts nor expires a hint for `t` with the key, and no such hint is accepted. */
  predicate Calm(l: Limits, s: State, a: Action, t: Node, key: string) {
    var q := QueueOf(s.hints, t);
    match a
    case Store(u, _, _, _) => u == t && |q| >= l.maxSize && q != [] ==> q[0].key != key
    case Cleanup(at) => forall h :: h in q && h.key == key ==> Fits(h, at, l.maxAge)
    case Accept => !(s.phase.Delivering? && s.phase.target == t && s.phase.rest != [] && s.phase.rest[0].key == key)
    case _ => true
  }

  predicate OnTarget(s: State, t: Node) { !s.phase.Resting? && s.phase.target == t }

  /** The step completes a delivery round for the target. */
  predicate EndsRound(s: State, a: Action, t: Node) { a.EndTarget? && OnTarget(s, t) }

  /** The hint with the key has been refused once in the current round. */
  predicate RefusedThisRound(s: State, t: Node, key: string, rounds: nat) {
    Pending(s, t, key) >= rounds + 1 && (rounds <= PATIENCE || (s.phase.GivingUp? && s.phase.rest != [] && s.phase.rest[0].key == key))
  }

  predicate StillToRefuse(s: State, t: Node, key: string, rounds: nat)
    requires !s.phase.Resting?
  {
    var ahead := if s.phase.GivingUp? && s.phase.rest != [] then s.phase.rest[1..] else s.phase.rest;
    Pending(s, t, key) >= rounds && Attempts(ahead, key) >= rounds
  }

  /** A key that stayed through `rounds` refused rounds has at least as many attempts, and not more rounds than the limit. */
  predicate Pressed(s: State, t: Node, key: string, rounds: nat) {
    && Pending(s, t, key) >= rounds && rounds <= PATIENCE + 1
    && (OnTarget(s, t) ==> RefusedThisRound(s, t, key, rounds) || StillToRefuse(s, t, key, rounds))
  }

  lemma AttemptsRest(rest: seq<Hint>, key: string)
    requires rest != []
    ensures Attempts(rest, key) == if rest[0].key == key then rest[0].attempts else Attempts(rest[1..], key)
  {
    if rest[0].key == key {
      AttemptsAt(rest, key, 0);
    } else {
      var i := FirstWith(rest[1..], key);
      if i < |rest| - 1 { AttemptsAt(rest, key, i + 1); }
    }
  }

  lemma ExternalStepPresses(l: Limits, s: State, a: Action, t: Node, key: string, rounds: nat)
    requires Pressed(s, t, key, rounds) && Enabled(l, s, a) && Calm(l, s, a, t, key)
    requires a.Store? || a.Cleanup? || a.StartTarget? || a.EndTarget?
    ensures Pressed(Step(l, s, a), t, key, if EndsRound(s, a, t) then rounds + 1 else rounds)
  {
    var q := QueueOf(s.hints, t);
    match a
    case Store(u, k, copy, at) => if u == t { StoredAttempts(q, Hint(u, k, copy, at, 0), l.maxSize, key); }
    case Cleanup(at) => UnexpiredAttempts(q, at, l.maxAge, key);
    case _ =>
  }

  lemma DeliveryStepPresses(l: Limits, s: State, a: Action, t: Node, key: string, rounds: nat)
    requires Pressed(s, t, key, rounds) && Enabled(l, s, a) && Calm(l, s, a, t, key)
    requires a.Accept? || a.Refuse? || a.GiveUp?
    requires !(a.GiveUp? && s.phase.target == t && s.phase.rest[0].key == key)
    ensures Pressed(Step(l, s, a), t, key, rounds)
  {
    if s.phase.target == t {
      var q, rest := QueueOf(s.hints, t), s.phase.rest;
      AttemptsRest(rest, key);
      match a
      case Refuse => BumpedAttempts(q, rest[0].key, key);
      case Accept => WithoutOtherKey(q, rest[0].key, key);
      case GiveUp => WithoutOtherKey(q, rest[0].key, key);
      case _ =>
    }
  }

  // runs from a given state

  ghost predicate IsRun(l: Limits, s: State, run: seq<Action>)
    decreases |run|, 0
  {
    run == [] || (var init := run[..|run| - 1]; IsRun(l, s, init) && Enabled(l, StateAfter(l, s, init), run[|run| - 1]))
  }

  ghost function StateAfter(l: Limits, s: State, run: seq<Action>): State
    requires IsRun(l, s, run)
    decreases |run|, 1
  {
    if run == [] then s
    else var init := run[..|run| - 1]; Step(l, StateAfter(l, s, init), run[|run| - 1])
  }

  ghost predicate CalmRun(l: Limits, s: State, run: seq<Action>, t: Node, key: string)
    requires IsRun(l, s, run)
  {
    run == [] || (var init := run[..|run| - 1]; CalmRun(l, s, init, t, key) && Calm(l, StateAfter(l, s, init), run[|run| - 1], t, key))
  }

  /** The completed delivery rounds for the target. */
  ghost function Rounds(l: Limits, s: State, run: seq<Action>, t: Node): nat
    requires IsRun(l, s, run)
  {
    if run == [] then 0
    else
      var init := run[..|run| - 1];
      Rounds(l, s, init, t) + if EndsRound(StateAfter(l, s, init), run[|run| - 1], t) then 1 else 0
  }

  /** There was a hint for the target with the key all along. */
  ghost predicate Stays(l: Limits, s: State, run: seq<Action>, t: Node, key: string)
    requires IsRun(l, s, run)
  {
    && Pending(StateAfter(l, s, run), t, key) >= 0
    && (run == [] || Stays(l, s, run[..|run| - 1], t, key))
  }

  lemma GiveUpRemoves(l: Limits, s: State, t: Node)
    requires Enabled(l, s, GiveUp) && s.phase.target == t
    ensures Pending(Step(l, s, GiveUp), t, s.phase.rest[0].key) == -1
  {
    var q, key := QueueOf(s.hints, t), s.phase.rest[0].key;
    var r := WithoutKey(q, key);
    if FirstWith(r, key) < |r| { WithoutKeyMembers(q, key, r[FirstWith(r, key)]); }
  }

  lemma {:induction false} StayingPresses(l: Limits, s: State, run: seq<Action>, t: Node, key: string)
    requires IsRun(l, s, run) && CalmRun(l, s, run, t, key) && Stays(l, s, run, t, key) && !OnTarget(s, t)
    ensures Pressed(StateAfter(l, s, run), t, key, Rounds(l, s, run, t))
  {
    if run == [] {
    } else {
      var init, a := run[..|run| - 1], run[|run| - 1];
      StayingPresses(l, s, init, t, key);
      var before := StateAfter(l, s, init);
      if a.Accept? || a.Refuse? || a.GiveUp? {
        if a.GiveUp? && before.phase.target == t { GiveUpRemoves(l, before, t); }
        DeliveryStepPresses(l, before, a, t, key, Rounds(l, s, init, t));
      } else {
        ExternalStepPresses(l, before, a, t, key, Rounds(l, s, init, t));
      }
    }
  }

  /** A hint for a live target that never accepts it is gone by the end of the twelfth delivery round. */
  lemma LeavesWithinTwelveRounds(l: Limits, s: State, run: seq<Action>, t: Node, key: string)
    requires IsRun(l, s, run) && CalmRun(l, s, run, t, key) && !OnTarget(s, t)
    requires Rounds(l, s, run, t) >= 12
    ensures !Stays(l, s, run, t, key)
  {
    if Stays(l, s, run, t, key) { StayingPresses(l, s, run, t, key); }
  }

  // --------------------------------------------------------- a round as the code does it

  /** What becomes of the hints when one copied hint was sent. */
  function AfterHint(hints: Hints, h: Hint, target: Node, accepted: bool): Hints {
    if accepted then RemoveKey(hints, target, h.key)
    else
      var bumped := Bump(hints, target, h.key);
      if h.attempts > PATIENCE then RemoveKey(bumped, target, h.key) else bumped
  }

  /** The hints when the first `k` of the copied hints were sent. */
  function AfterHints(hints: Hints, copied: seq<Hint>, target: Node, accepts: nat -> bool, k: nat): Hints
    requires k <= |copied|
  {
    if k == 0 then hints else AfterHint(AfterHints(hints, copied, target, accepts, k - 1), copied[k - 1], target, accepts(k - 1))
  }

  /** A whole delivery round for one target. */
  function AfterRound(hints: Hints, target: Node, accepts: nat -> bool): Hints {
    AfterHints(hints, QueueOf(hints, target), target, accepts, |QueueOf(hints, target)|)
  }

  /** The state inside a round, when the first `k` of the copied hints were sent. */
  function MidRound(s: State, target: Node, accepts: nat -> bool, k: nat): State
    requires k <= |QueueOf(s.hints, target)|
  {
    var copied := QueueOf(s.hints, target);
    s.(hints := AfterHints(s.hints, copied, target, accepts, k), phase := Delivering(target, copied[k..]))
  }

  lemma ExtendRun(l: Limits, s: State, run: seq<Action>, a: Action, t: Node)
    requires IsRun(l, s, run) && Enabled(l, StateAfter(l, s, run), a)
    ensures IsRun(l, s, run + [a]) && StateAfter(l, s, run + [a]) == Step(l, StateAfter(l, s, run), a)
    ensures Rounds(l, s, run + [a], t) == Rounds(l, s, run, t) + if EndsRound(StateAfter(l, s, run), a, t) then 1 else 0
  {
    assert (run + [a])[..|run|] == run;
  }

  lemma {:induction false} MidRoundRun(l: Limits, s: State, target: Node, accepts: nat -> bool, k: nat) returns (run: seq<Action>)
    requires s.phase.Resting? && k <= |QueueOf(s.hints, target)|
    ensures IsRun(l, s, run) && StateAfter(l, s, run) == MidRound(s, target, accepts, k) && Rounds(l, s, run, target) == 0
  {
    var copied := QueueOf(s.hints, target);
    if k == 0 {
      ExtendRun(l, s, [], StartTarget(target), target);
      run := [] + [StartTarget(target)];
      assert copied[0..] == copied;
    } else {
      run := MidRoundRun(l, s, target, accepts, k - 1);
      assert copied[k - 1..][1..] == copied[k..];
      if accepts(k - 1) {
        ExtendRun(l, s, run, Accept, target);
        run := run + [Accept];
      } else {
        ExtendRun(l, s, run, Refuse, target);
        run := run + [Refuse];
        if copied[k - 1].attempts > PATIENCE {
          ExtendRun(l, s, run, GiveUp, target);
          run := run + [GiveUp];
        }
      }
    }
  }

  /** A round as the code does it, with nothing in between, is a series of steps that counts as one round. */
  lemma RoundRun(l: Limits, s: State, target: Node, accepts: nat -> bool) returns (run: seq<Action>)
    requires s.phase.Resting?
    ensures IsRun(l, s, run) && Rounds(l, s, run, target) == 1
    ensures StateAfter(l, s, run) == s.(hints := AfterRound(s.hints, target, accepts))
  {
    var n := |QueueOf(s.hints, target)|;
    run := MidRoundRun(l, s, target, accepts, n);
    ExtendRun(l, s, run, EndTarget, target);
    run := run + [EndTarget];
  }

  /** Every send is refused. */
  const NEVER: nat -> bool := _ => false

  function AfterRefusals(hints: Hints, target: Node, rounds: nat): Hints {
    if rounds == 0 then hints else AfterRound(AfterRefusals(hints, target, rounds - 1), target, NEVER)
  }

  lemma OneRefusal(target: Node, h: Hint)
    ensures AfterRound(map[target := [h]], target, NEVER) ==
            if h.attempts > PATIENCE then map[] else map[target := [h.(attempts := h.attempts + 1)]]
  {
    var bumped := h.(attempts := h.attempts + 1);
    assert FirstWith([h], h.key) == 0;
    assert Bumped([h], h.key) == [bumped];
    assert WithoutKey([bumped], h.key) == [];
    var hints: Hints := map[target := [h]];
    assert AfterHints(hints, [h], target, NEVER, 1) == AfterHint(hints, h, target, false);
  }

  /** A lone new hint after some refused rounds. */
  function Refused(target: Node, h: Hint, rounds: nat): Hints {
    if rounds <= 11 then map[target := [h.(attempts := rounds)]] else map[]
  }

  lemma OneMoreRefusal(target: Node, h: Hint, rounds: nat)
    ensures AfterRound(Refused(target, h, rounds), target, NEVER) == Refused(target, h, rounds + 1)
  {
    if rounds <= 11 { OneRefusal(target, h.(attempts := rounds)); } else { NothingToRefuse(target); }
  }

  lemma NothingToRefuse(target: Node)
    ensures AfterRound(map[], target, NEVER) == map[]
  {
  }

  lemma RefusalsFrom(start: Hints, target: Node, rounds: nat, before: Hints, after: Hints)
    requires AfterRefusals(start, target, rounds) == before && AfterRound(before, target, NEVER) == after
    ensures AfterRefusals(start, target, rounds + 1) == after
  {
  }

  lemma {:induction false} RefusalsAre(start: Hints, target: Node, h: Hint, rounds: nat)
    requires start == Refused(target, h, 0)
    ensures AfterRefusals(start, target, rounds) == Refused(target, h, rounds)
  {
    if rounds == 0 {
    } else {
      RefusalsAre(start, target, h, rounds - 1);
      OneMoreRefusal(target, h, rounds - 1);
      RefusalsFrom(start, target, rounds - 1, Refused(target, h, rounds - 1), Refused(target, h, rounds));
    }
  }

  /** Twelve rounds are needed: a lone new hint survives eleven refusals and not the twelfth. */
  lemma TwelfthRefusalGivesUp(target: Node, h: Hint, rounds: nat)
    requires h.attempts == 0
    ensures AfterRefusals(map[target := [h]], target, rounds) ==
            if rounds <= 11 then map[target := [h.(attempts := rounds)]] else map[]
  {
    RefusalsAre(map[target := [h]], target, h, rounds);
  }

  // ---------------------------------------------------------------- the objects

  class HintedHandoffStore {
    var hints: Hints
    const maxAge: int
    const maxSize: int

    constructor (maxAge: int, maxSize: int)
      ensures hints == map[] && this.maxAge == maxAge && this.maxSize == maxSize
    {
      hints := map[];
      this.maxAge, this.maxSize := maxAge, maxSize;
    }

    /** Appends a hint, dropping the oldest of a full queue; with no room at all it fails on the empty queue. */
    method Store(target: Node, key: string, copy: Q.Copy, now: int) returns (panicked: bool)
      modifies this
      ensures panicked <==> maxSize <= |QueueOf(old(hints), target)| == 0
      ensures hints == if panicked then old(hints)
                       else old(hints)[target := Stored(QueueOf(old(hints), target), Hint(target, key, copy, now, 0), maxSize)]
    {
      var hint := Hint(target, key, copy, now, 0);
      var queue := QueueOf(hints, target);
      if |queue| >= maxSize {
        if |queue| == 0 {
          return true;
        }
        queue := queue[1..];
      }
      hints := hints[target := queue + [hint]];
      return false;
    }

    method GetHints(target: Node) returns (r: seq<Hint>)
      ensures r == QueueOf(hints, target)
    {
      r := if target in hints then hints[target] else [];
    }

    method RemoveHint(target: Node, key: string)
      modifies this
      ensures hints == RemoveKey(old(hints), target, key)
    {
      var queue := QueueOf(hints, target);
      var newHints := [];
      for i := 0 to |queue|
        invariant newHints == WithoutKey(queue[..i], key) && hints == old(hints)
      {
        assert queue[..i + 1][..i] == queue[..i];
        if queue[i].key != key {
          newHints := newHints + [queue[i]];
        }
      }
      assert queue[..|queue|] == queue;
      if |newHints| == 0 {
        hints := hints - {target};
      } else {
        hints := hints[target := newHints];
      }
    }

    /** Counts an attempt for the first hint with the key. */
    method IncrementAttempts(target: Node, key: string)
      modifies this
      ensures hints == Bump(old(hints), target, key)
    {
      var queue := QueueOf(hints, target);
      for i := 0 to |queue|
        invariant hints == old(hints) && forall j :: 0 <= j < i ==> queue[j].key != key
      {
        if queue[i].key == key {
          hints := hints[target := queue[i := queue[i].(attempts := queue[i].attempts + 1)]];
          return;
        }
      }
      if target in hints { assert Bumped(queue, key) == queue; }
    }

    method GetAllTargets() returns (targets: seq<Node>)
      ensures NoRepeats(targets) && Members(targets) == hints.Keys
    {
      targets := [];
      var rest := hints.Keys;
      while rest != {}
        invariant rest <= hints.Keys && NoRepeats(targets) && Members(targets) == hints.Keys - rest
      {
        var t :| t in rest;
        ListNext(targets, hints.Keys, rest, t);
        targets, rest := targets + [t], rest - {t};
      }
    }

    /** Drops the expired hints, and the queues left empty. */
    method Cleanup(now: int)
      modifies this
      ensures hints == CleanedUp(old(hints), now, maxAge)
      ensures OnlyYoungLeft(hints, old(hints), now, maxAge)
    {
      var targets := GetAllTargets();
      ghost var before := hints;
      NoneCleaned(before, targets, now, maxAge);
      for i := 0 to |targets|
        invariant CleanedFirst(hints, before, targets, now, maxAge, i)
      {
        CleanTarget(targets, i, now, before);
      }
      AllCleaned(hints, before, targets, now, maxAge);
      CleanedMembers(before, now, maxAge);
    }

    method CleanTarget(targets: seq<Node>, i: nat, now: int, ghost before: Hints)
      requires i < |targets| && NoRepeats(targets) && Members(targets) == before.Keys
      requires CleanedFirst(hints, before, targets, now, maxAge, i)
      modifies this
      ensures CleanedFirst(hints, before, targets, now, maxAge, i + 1)
    {
      CleanNext(before, targets, i, now, maxAge);
      var newHints := KeepUnexpired(hints[targets[i]], now, maxAge);
      hints := if |newHints| == 0 then hints - {targets[i]} else hints[targets[i] := newHints];
    }
  }

  /** The queues of the first `i` targets were cleaned. */
  ghost predicate CleanedFirst(hints: Hints, before: Hints, targets: seq<Node>, now: int, maxAge: int, i: nat) {
    i <= |targets| && hints == CleanedSome(before, Members(targets[..i]), now, maxAge)
  }

  lemma NoneCleaned(hints: Hints, targets: seq<Node>, now: int, maxAge: int)
    ensures CleanedFirst(hints, hints, targets, now, maxAge, 0)
  {
    CleanedEnds(hints, now, maxAge);
    assert Members(targets[..0]) == {};
  }

  lemma AllCleaned(hints: Hints, before: Hints, targets: seq<Node>, now: int, maxAge: int)
    requires Members(targets) == before.Keys && CleanedFirst(hints, before, targets, now, maxAge, |targets|)
    ensures hints == CleanedUp(before, now, maxAge)
  {
    CleanedEnds(before, now, maxAge);
    assert targets[..|targets|] == targets;
  }

  /** Exactly the hints younger than `maxAge` are left. */
  ghost predicate OnlyYoungLeft(after: Hints, hints: Hints, now: int, maxAge: int) {
    forall t, h: Hint :: h in QueueOf(after, t) <==> h in QueueOf(hints, t) && now - h.createdAt < maxAge
  }

  lemma CleanedMembers(hints: Hints, now: int, maxAge: int)
    ensures OnlyYoungLeft(CleanedUp(hints, now, maxAge), hints, now, maxAge)
  {
    forall t, h: Hint
      ensures h in QueueOf(CleanedUp(hints, now, maxAge), t) <==> h in QueueOf(hints, t) && now - h.createdAt < maxAge
    {
      UnexpiredMembers(QueueOf(hints, t), now, maxAge, h);
    }
  }

  method KeepUnexpired(queue: seq<Hint>, now: int, maxAge: int) returns (r: seq<Hint>)
    ensures r == Unexpired(queue, now, maxAge)
  {
    r := [];
    for i := 0 to |queue|
      invariant r == Unexpired(queue[..i], now, maxAge)
    {
      assert queue[..i + 1][..i] == queue[..i];
      if now - queue[i].createdAt < maxAge {
        r := r + [queue[i]];
      }
    }
    assert queue[..|queue|] == queue;
  }

  /** The hints when the targets in `done` were cleaned up. */
  function CleanedSome(hints: Hints, done: set<Node>, now: int, maxAge: int): Hints {
    map t | t in hints && (t in done ==> Unexpired(hints[t], now, maxAge) != []) :: if t in done then Unexpired(hints[t], now, maxAge) else hints[t]
  }

  lemma CleanedEnds(hints: Hints, now: int, maxAge: int)
    ensures CleanedSome(hints, {}, now, maxAge) == hints
    ensures CleanedSome(hints, hints.Keys, now, maxAge) == CleanedUp(hints, now, maxAge)
  {
  }

  lemma CleanNext(hints: Hints, targets: seq<Node>, i: nat, now: int, maxAge: int)
    requires NoRepeats(targets) && Members(targets) == hints.Keys && i < |targets|
    ensures var t, before := targets[i], CleanedSome(hints, Members(targets[..i]), now, maxAge);
            && t in before && before[t] == hints[t]
            && CleanedSome(hints, Members(targets[..i + 1]), now, maxAge) == SetQueue(before, t, Unexpired(hints[t], now, maxAge))
  {
    NextIsNew(targets, i);
    assert targets[i] in Members(targets);
  }

  datatype ClusterNode = ClusterNode(id: Node, alive: bool)

  predicate Alive(cluster: seq<ClusterNode>, target: Node) { exists i :: 0 <= i < |cluster| && cluster[i].id == target && cluster[i].alive }

  /** Which sends to one target succeed. */
  function SendsTo(accepts: (Node, nat) -> bool, t: Node): nat -> bool { (i: nat) => accepts(t, i) }

  /** The hints when the first `k` targets were dealt with; the cluster is looked up anew for each. */
  function AfterTargets(hints: Hints, targets: seq<Node>, clusters: nat -> seq<ClusterNode>, accepts: (Node, nat) -> bool, k: nat): Hints
    requires k <= |targets|
  {
    if k == 0 then hints
    else
      var before, t := AfterTargets(hints, targets, clusters, accepts, k - 1), targets[k - 1];
      if Alive(clusters(k - 1), t) then AfterRound(before, t, SendsTo(accepts, t)) else before
  }

  method NodeAlive(cluster: seq<ClusterNode>, target: Node) returns (alive: bool)
    ensures alive <==> Alive(cluster, target)
  {
    for i := 0 to |cluster|
      invariant forall j :: 0 <= j < i ==> !(cluster[j].id == target && cluster[j].alive)
    {
      if cluster[i].id == target && cluster[i].alive {
        return true;
      }
    }
    return false;
  }

  /** What the hints are when the first `i` of the copied ones were sent. */
  ghost predicate Sent(hints: Hints, before: Hints, copied: seq<Hint>, target: Node, accepts: nat -> bool, i: nat) {
    i <= |copied| && hints == AfterHints(before, copied, target, accepts, i)
  }

  /** A refused hint is tried again later, unless it was tried often enough. */
  method DeliverHint(store: HintedHandoffStore, target: Node, copied: seq<Hint>, accepts: nat -> bool, i: nat, ghost before: Hints)
    requires i < |copied| && Sent(store.hints, before, copied, target, accepts, i)
    modifies store
    ensures Sent(store.hints, before, copied, target, accepts, i + 1)
  {
    var hint := copied[i];
    if accepts(i) {
      store.RemoveHint(target, hint.key);
    } else {
      store.IncrementAttempts(target, hint.key);
      if hint.attempts > 10 {
        store.RemoveHint(target, hint.key);
      }
    }
  }

  method DeliverCopied(store: HintedHandoffStore, target: Node, copied: seq<Hint>, accepts: nat -> bool)
    modifies store
    ensures store.hints == AfterHints(old(store.hints), copied, target, accepts, |copied|)
  {
    ghost var before := store.hints;
    for i := 0 to |copied|
      invariant Sent(store.hints, before, copied, target, accepts, i)
    {
      DeliverHint(store, target, copied, accepts, i, before);
    }
  }

  /** Sends the copied hints of one target; `accepts` says which sends succeed. */
  method DeliverTo(store: HintedHandoffStore, target: Node, accepts: nat -> bool)
    modifies store
    ensures store.hints == AfterRound(old(store.hints), target, accepts)
  {
    var copied := store.GetHints(target);
    DeliverCopied(store, target, copied, accepts);
  }

  // what a round and a pass leave in each queue

  lemma HintElsewhere(hints: Hints, h: Hint, target: Node, accepted: bool, t: Node)
    requires t != target
    ensures var after := AfterHint(hints, h, target, accepted); QueueOf(after, t) == QueueOf(hints, t) && (t in after <==> t in hints)
  {
  }

  lemma HintOwn(hints: Hints, others: Hints, h: Hint, target: Node, accepted: bool)
    requires QueueOf(hints, target) == QueueOf(others, target) && (target in hints <==> target in others)
    ensures var after, after' := AfterHint(hints, h, target, accepted), AfterHint(others, h, target, accepted);
            QueueOf(after, target) == QueueOf(after', target) && (target in after <==> target in after')
  {
  }

  /** Sending to one target leaves the queues of all others alone. */
  lemma {:induction false} HintsElsewhere(hints: Hints, copied: seq<Hint>, target: Node, accepts: nat -> bool, k: nat, t: Node)
    requires k <= |copied| && t != target
    ensures var after := AfterHints(hints, copied, target, accepts, k); QueueOf(after, t) == QueueOf(hints, t) && (t in after <==> t in hints)
  {
    if k == 0 {
    } else {
      HintsElsewhere(hints, copied, target, accepts, k - 1, t);
      HintElsewhere(AfterHints(hints, copied, target, accepts, k - 1), copied[k - 1], target, accepts(k - 1), t);
    }
  }

  /** And what it does to the target's queue depends on that queue alone. */
  lemma {:induction false} HintsOwn(hints: Hints, others: Hints, copied: seq<Hint>, target: Node, accepts: nat -> bool, k: nat)
    requires k <= |copied| && QueueOf(hints, target) == QueueOf(others, target) && (target in hints <==> target in others)
    ensures var after, after' := AfterHints(hints, copied, target, accepts, k), AfterHints(others, copied, target, accepts, k);
            QueueOf(after, target) == QueueOf(after', target) && (target in after <==> target in after')
  {
    if k == 0 {
    } else {
      HintsOwn(hints, others, copied, target, accepts, k - 1);
      HintOwn(AfterHints(hints, copied, target, accepts, k - 1), AfterHints(others, copied, target, accepts, k - 1), copied[k - 1], target, accepts(k - 1));
    }
  }

  /** Some entry of the cluster names the target and is alive. */
  lemma AliveMeans(cluster: seq<ClusterNode>, target: Node)
    ensures Alive(cluster, target) <==> ClusterNode(target, true) in cluster
  {
    if i :| 0 <= i < |cluster| && cluster[i].id == target && cluster[i].alive { assert cluster[i] == ClusterNode(target, true); }
  }

  lemma OneMoreTarget(hints: Hints, targets: seq<Node>, clusters: nat -> seq<ClusterNode>, accepts: (Node, nat) -> bool, k: nat, u: Node)
    requires 0 < k <= |targets|
    ensures var before, after, t := AfterTargets(hints, targets, clusters, accepts, k - 1), AfterTargets(hints, targets, clusters, accepts, k), targets[k - 1];
            && after == (if ClusterNode(t, true) in clusters(k - 1) then AfterRound(before, t, SendsTo(accepts, t)) else before)
            && (u != t ==> QueueOf(after, u) == QueueOf(before, u) && (u in after <==> u in before))
  {
    var before, t := AfterTargets(hints, targets, clusters, accepts, k - 1), targets[k - 1];
    AliveMeans(clusters(k - 1), t);
    if u != t { HintsElsewhere(before, QueueOf(before, t), t, SendsTo(accepts, t), |QueueOf(before, t)|, u); }
  }

  /** A round starts from the target's queue alone. */
  lemma RoundOwn(hints: Hints, others: Hints, target: Node, accepts: nat -> bool)
    requires QueueOf(hints, target) == QueueOf(others, target) && (target in hints <==> target in others)
    ensures QueueOf(AfterRound(hints, target, accepts), target) == QueueOf(AfterRound(others, target, accepts), target)
  {
    HintsOwn(hints, others, QueueOf(hints, target), target, accepts, |QueueOf(hints, target)|);
  }

  lemma {:induction false} NotYetTheirTurn(hints: Hints, targets: seq<Node>, clusters: nat -> seq<ClusterNode>, accepts: (Node, nat) -> bool, k: nat, u: Node)
    requires k <= |targets| && u !in targets[..k]
    ensures var after := AfterTargets(hints, targets, clusters, accepts, k); QueueOf(after, u) == QueueOf(hints, u) && (u in after <==> u in hints)
  {
    if k == 0 {
    } else {
      assert targets[..k] == targets[..k - 1] + [targets[k - 1]];
      NotYetTheirTurn(hints, targets, clusters, accepts, k - 1, u);
      OneMoreTarget(hints, targets, clusters, accepts, k, u);
    }
  }

  /**
   * A pass sends exactly to those targets that the cluster lists as alive when their turn comes: their
   * queues are those after one round, and all other queues are what they were.
   */
  lemma {:induction false} PassExactly(hints: Hints, targets: seq<Node>, clusters: nat -> seq<ClusterNode>, accepts: (Node, nat) -> bool, k: nat, i: nat)
    requires i < k <= |targets| && NoRepeats(targets)
    ensures QueueOf(AfterTargets(hints, targets, clusters, accepts, k), targets[i]) ==
            if ClusterNode(targets[i], true) in clusters(i) then QueueOf(AfterRound(hints, targets[i], SendsTo(accepts, targets[i])), targets[i])
            else QueueOf(hints, targets[i])
  {
    var t := targets[i];
    OneMoreTarget(hints, targets, clusters, accepts, k, t);
    if i == k - 1 {
      NextIsNew(targets, i);
      assert t !in Members(targets[..i]);
      NotYetTheirTurn(hints, targets, clusters, accepts, i, t);
      RoundOwn(AfterTargets(hints, targets, clusters, accepts, i), hints, t, SendsTo(accepts, t));
    } else {
      NoRepeatsMeans(targets);
      PassExactly(hints, targets, clusters, accepts, k - 1, i);
    }
  }

  lemma AcceptedIsGone(hints: Hints, g: Hint, target: Node, h: Hint)
    ensures h in QueueOf(AfterHint(hints, g, target, true), target) <==> h in QueueOf(hints, target) && h.key != g.key
  {
    WithoutKeyMembers(QueueOf(hints, target), g.key, h);
  }

  /** What is left when some first hints were accepted: those with other keys. */
  lemma {:induction false} AcceptedAreGone(hints: Hints, copied: seq<Hint>, target: Node, accepts: nat -> bool, k: nat, h: Hint)
    requires k <= |copied| && forall i :: 0 <= i < k ==> accepts(i)
    ensures h in QueueOf(AfterHints(hints, copied, target, accepts, k), target) <==>
            h in QueueOf(hints, target) && forall i :: 0 <= i < k ==> copied[i].key != h.key
  {
    if k == 0 {
    } else {
      AcceptedAreGone(hints, copied, target, accepts, k - 1, h);
      AcceptedIsGone(AfterHints(hints, copied, target, accepts, k - 1), copied[k - 1], target, h);
    }
  }

  /** A round in which every send is accepted empties the queue. */
  lemma AcceptedRoundEmpties(hints: Hints, target: Node, accepts: nat -> bool)
    requires forall i: nat :: i < |QueueOf(hints, target)| ==> accepts(i)
    ensures QueueOf(AfterRound(hints, target, accepts), target) == []
  {
    var q, after := QueueOf(hints, target), QueueOf(AfterRound(hints, target, accepts), target);
    assert after != [] ==> after[0] in after;
    forall h: Hint
      ensures h !in after
    {
      AcceptedAreGone(hints, q, target, accepts, |q|, h);
      assert forall i :: 0 <= i < |q| && q[i] == h ==> q[i].key == h.key;
    }
  }

  /** One pass of the delivery loop over all targets with hints, in some order. */
  method DeliverPendingHandoffs(store: HintedHandoffStore, clusters: nat -> seq<ClusterNode>, accepts: (Node, nat) -> bool) returns (targets: seq<Node>)
    modifies store
    ensures NoRepeats(targets) && Members(targets) == old(store.hints).Keys
    ensures store.hints == AfterTargets(old(store.hints), targets, clusters, accepts, |targets|)
    ensures forall i :: 0 <= i < |targets| ==>
              QueueOf(store.hints, targets[i]) ==
              if ClusterNode(targets[i], true) in clusters(i) then QueueOf(AfterRound(old(store.hints), targets[i], SendsTo(accepts, targets[i])), targets[i])
              else QueueOf(old(store.hints), targets[i])
  {
    targets := store.GetAllTargets();
    for i := 0 to |targets|
      invariant store.hints == AfterTargets(old(store.hints), targets, clusters, accepts, i)
    {
      var t := targets[i];
      var alive := NodeAlive(clusters(i), t);
      if alive {
        DeliverTo(store, t, SendsTo(accepts, t));
      }
    }
    forall i | 0 <= i < |targets|
      ensures QueueOf(store.hints, targets[i]) ==
              if ClusterNode(targets[i], true) in clusters(i) then QueueOf(AfterRound(old(store.hints), targets[i], SendsTo(accepts, targets[i])), targets[i])
              else QueueOf(old(store.hints), targets[i])
    {
      PassExactly(old(store.hints), targets, clusters, accepts, |targets|, i);
    }
  }

  // ----------------------------------------------------------------- whole runs

  const START := State(map[], Resting, 0, map[])

  /** In every run the queues stay within their size, in Store order and ordered by age. */
  lemma {:induction false} RunKeepsQueues(l: Limits, run: seq<Action>)
    requires IsRun(l, START, run)
    ensures var s' := StateAfter(l, START, run);
            && Inv(l, s')
            && forall t :: t in s'.hints ==> 0 < |s'.hints[t]| <= l.maxSize && Subsequence(s'.hints[t], s'.log[t]) && Ordered(s'.hints[t])
  {
    if run == [] {
    } else {
      var init := run[..|run| - 1];
      RunKeepsQueues(l, init);
      StepKeepsInv(l, StateAfter(l, START, init), run[|run| - 1]);
    }
    var s' := StateAfter(l, START, run);
    forall t | t in s'.hints
      ensures Ordered(s'.hints[t])
    {
      SubsequenceOrdered(s'.hints[t], s'.log[t]);
    }
  }

  /** So in every run a cleanup takes exactly a prefix off each queue: the hints that are too old. */
  lemma RunExpiresPrefix(l: Limits, run: seq<Action>, at: int, t: Node) returns (k: nat)
    requires IsRun(l, START, run) && Enabled(l, StateAfter(l, START, run), Cleanup(at))
    ensures var q := QueueOf(StateAfter(l, START, run).hints, t);
            && k <= |q| && QueueOf(Step(l, StateAfter(l, START, run), Cleanup(at)).hints, t) == q[k..]
            && (forall i :: 0 <= i < k ==> at - q[i].createdAt >= l.maxAge)
            && (forall i :: k <= i < |q| ==> at - q[i].createdAt < l.maxAge)
  {
    RunKeepsQueues(l, run);
    k := ExpiryDropsPrefix(QueueOf(StateAfter(l, START, run).hints, t), at, l.maxAge);
  }

  // ------------------------------------------------- newer hints dropped unsent

  /** The queue that was copied when the target's round began. */
  ghost function CopiedIn(l: Limits, run: seq<Action>, t: Node): seq<Hint>
    requires IsRun(l, START, run)
  {
    if run == [] then []
    else
      var init := run[..|run| - 1];
      if run[|run| - 1] == StartTarget(t) then QueueOf(StateAfter(l, START, init).hints, t) else CopiedIn(l, init, t)
  }

  /** The step removes the target's hints with the key: a delivery or a giving up. */
  predicate Drops(s: State, a: Action, t: Node, key: string) {
    (a.Accept? || a.GiveUp?) && OnTarget(s, t) && s.phase.rest != [] && s.phase.rest[0].key == key
  }

  /** The end of the target's queue that was stored since its round began, a step later. */
  ghost function NewerAfter(l: Limits, s: State, a: Action, t: Node, newer: seq<Hint>): seq<Hint>
    requires Enabled(l, s, a)
  {
    var q := QueueOf(s.hints, t);
    match a
    case Store(u, key, copy, at) =>
      if u != t then newer else (if |q| >= l.maxSize && |newer| == |q| then newer[1..] else newer) + [Hint(t, key, copy, at, 0)]
    case Cleanup(at) => Unexpired(newer, at, l.maxAge)
    case StartTarget(u) => if u == t then [] else newer
    case Accept => if s.phase.target == t then WithoutKey(newer, s.phase.rest[0].key) else newer
    case Refuse => if s.phase.target == t && FirstWith(q, s.phase.rest[0].key) + |newer| >= |q| then Bumped(newer, s.phase.rest[0].key) else newer
    case GiveUp => if s.phase.target == t then WithoutKey(newer, s.phase.rest[0].key) else newer
    case EndTarget => newer
  }

  ghost function Newer(l: Limits, run: seq<Action>, t: Node): seq<Hint>
    requires IsRun(l, START, run)
  {
    if run == [] then []
    else
      var init := run[..|run| - 1];
      NewerAfter(l, StateAfter(l, START, init), run[|run| - 1], t, Newer(l, init, t))
  }

  /** The queue is what is left of the copied one, followed by the newer hints. */
  ghost predicate SplitsInto(q: seq<Hint>, copied: seq<Hint>, newer: seq<Hint>) {
    exists kept :: IsSplit(q, copied, newer, kept)
  }

  ghost predicate IsSplit(q: seq<Hint>, copied: seq<Hint>, newer: seq<Hint>, kept: seq<Hint>) {
    q == kept + newer && Subsequence(kept, copied)
  }

  lemma {:induction false} WithoutKeyConcat(a: seq<Hint>, b: seq<Hint>, key: string)
    ensures WithoutKey(a + b, key) == WithoutKey(a, key) + WithoutKey(b, key)
  {
    if b == [] {
      assert a + b == a;
    } else {
      assert (a + b)[..|a + b| - 1] == a + b[..|b| - 1];
      WithoutKeyConcat(a, b[..|b| - 1], key);
    }
  }

  lemma {:induction false} UnexpiredConcat(a: seq<Hint>, b: seq<Hint>, now: int, maxAge: int)
    ensures Unexpired(a + b, now, maxAge) == Unexpired(a, now, maxAge) + Unexpired(b, now, maxAge)
  {
    if b == [] {
      assert a + b == a;
    } else {
      assert (a + b)[..|a + b| - 1] == a + b[..|b| - 1];
      UnexpiredConcat(a, b[..|b| - 1], now, maxAge);
    }
  }

  lemma FirstWithAt(q: seq<Hint>, key: string, i: nat)
    requires i <= |q| && (i < |q| ==> q[i].key == key) && forall j :: 0 <= j < i ==> q[j].key != key
    ensures FirstWith(q, key) == i
  {
  }

  lemma BumpedConcat(a: seq<Hint>, b: seq<Hint>, key: string)
    ensures FirstWith(a + b, key) < |a| ==> Bumped(a + b, key) == Bumped(a, key) + b
    ensures FirstWith(a + b, key) >= |a| ==> Bumped(a + b, key) == a + Bumped(b, key)
  {
    var q := a + b;
    var i := FirstWith(q, key);
    if i < |a| {
      forall j | 0 <= j < i
        ensures a[j].key != key
      {
        assert q[j] == a[j];
      }
      assert q[i] == a[i];
      FirstWithAt(a, key, i);
    } else {
      forall j | 0 <= j < i - |a|
        ensures b[j].key != key
      {
        assert q[|a| + j] == b[j];
      }
      if i < |q| { assert q[i] == b[i - |a|]; }
      FirstWithAt(b, key, i - |a|);
    }
  }

  lemma SplitDropped(q: seq<Hint>, copied: seq<Hint>, newer: seq<Hint>, key: string)
    requires SplitsInto(q, copied, newer)
    ensures SplitsInto(WithoutKey(q, key), copied, WithoutKey(newer, key))
  {
    var kept :| IsSplit(q, copied, newer, kept);
    WithoutKeyConcat(kept, newer, key);
    WithoutKeyIsSubsequence(kept, key);
    SubsequenceTransitive(WithoutKey(kept, key), kept, copied);
    assert IsSplit(WithoutKey(q, key), copied, WithoutKey(newer, key), WithoutKey(kept, key));
  }

  lemma SplitExpired(q: seq<Hint>, copied: seq<Hint>, newer: seq<Hint>, now: int, maxAge: int)
    requires SplitsInto(q, copied, newer)
    ensures SplitsInto(Unexpired(q, now, maxAge), copied, Unexpired(newer, now, maxAge))
  {
    var kept :| IsSplit(q, copied, newer, kept);
    UnexpiredConcat(kept, newer, now, maxAge);
    UnexpiredIsSubsequence(kept, now, maxAge);
    SubsequenceTransitive(Unexpired(kept, now, maxAge), kept, copied);
    assert IsSplit(Unexpired(q, now, maxAge), copied, Unexpired(newer, now, maxAge), Unexpired(kept, now, maxAge));
  }

  lemma SplitBumped(q: seq<Hint>, copied: seq<Hint>, newer: seq<Hint>, key: string)
    requires SplitsInto(q, copied, newer)
    ensures SplitsInto(Bumped(q, key), copied, if FirstWith(q, key) + |newer| >= |q| then Bumped(newer, key) else newer)
  {
    var kept :| IsSplit(q, copied, newer, kept);
    BumpedConcat(kept, newer, key);
    if FirstWith(q, key) >= |kept| {
      assert IsSplit(Bumped(q, key), copied, Bumped(newer, key), kept);
    } else {
      BumpedIsSubsequence(kept, key);
      SubsequenceTransitive(Bumped(kept, key), kept, copied);
      assert IsSplit(Bumped(q, key), copied, newer, Bumped(kept, key));
    }
  }

  lemma SplitStored(q: seq<Hint>, copied: seq<Hint>, newer: seq<Hint>, h: Hint, maxSize: int)
    requires SplitsInto(q, copied, newer) && (|q| >= maxSize ==> q != [])
    ensures SplitsInto(Stored(q, h, maxSize), copied, (if |q| >= maxSize && |newer| == |q| then newer[1..] else newer) + [h])
  {
    var kept :| IsSplit(q, copied, newer, kept);
    if |q| < maxSize {
      assert IsSplit(Stored(q, h, maxSize), copied, newer + [h], kept);
    } else if kept == [] {
      assert IsSplit(Stored(q, h, maxSize), copied, newer[1..] + [h], []);
    } else {
      TailIsSubsequence(kept);
      SubsequenceTransitive(kept[1..], kept, copied);
      assert IsSplit(Stored(q, h, maxSize), copied, newer + [h], kept[1..]);
    }
  }

  lemma SplitStarts(q: seq<Hint>)
    ensures SplitsInto(q, q, [])
  {
    PointwiseSame(q, q);
    assert IsSplit(q, q, [], q);
  }

  lemma StoreSplits(l: Limits, s: State, u: Node, key: string, copy: Q.Copy, at: int, t: Node, copied: seq<Hint>, newer: seq<Hint>)
    requires Enabled(l, s, Store(u, key, copy, at)) && SplitsInto(QueueOf(s.hints, t), copied, newer)
    ensures SplitsInto(QueueOf(Step(l, s, Store(u, key, copy, at)).hints, t), copied, NewerAfter(l, s, Store(u, key, copy, at), t, newer))
  {
    if u == t { SplitStored(QueueOf(s.hints, t), copied, newer, Hint(t, key, copy, at, 0), l.maxSize); }
  }

  lemma DropSplits(l: Limits, s: State, a: Action, t: Node, copied: seq<Hint>, newer: seq<Hint>)
    requires Enabled(l, s, a) && SplitsInto(QueueOf(s.hints, t), copied, newer) && (a.Accept? || a.GiveUp?)
    ensures SplitsInto(QueueOf(Step(l, s, a).hints, t), copied, NewerAfter(l, s, a, t, newer))
  {
    SplitDropped(QueueOf(s.hints, t), copied, newer, s.phase.rest[0].key);
  }

  lemma RefuseSplits(l: Limits, s: State, t: Node, copied: seq<Hint>, newer: seq<Hint>)
    requires Enabled(l, s, Refuse) && SplitsInto(QueueOf(s.hints, t), copied, newer)
    ensures SplitsInto(QueueOf(Step(l, s, Refuse).hints, t), copied, NewerAfter(l, s, Refuse, t, newer))
  {
    SplitBumped(QueueOf(s.hints, t), copied, newer, s.phase.rest[0].key);
  }

  lemma StepSplits(l: Limits, s: State, a: Action, t: Node, copied: seq<Hint>, newer: seq<Hint>)
    requires Enabled(l, s, a) && SplitsInto(QueueOf(s.hints, t), copied, newer) && a != StartTarget(t)
    ensures SplitsInto(QueueOf(Step(l, s, a).hints, t), copied, NewerAfter(l, s, a, t, newer))
  {
    match a
    case Store(u, key, copy, at) => StoreSplits(l, s, u, key, copy, at, t, copied, newer);
    case Cleanup(at) => SplitExpired(QueueOf(s.hints, t), copied, newer, at, l.maxAge);
    case Accept => DropSplits(l, s, a, t, copied, newer);
    case Refuse => RefuseSplits(l, s, t, copied, newer);
    case GiveUp => DropSplits(l, s, a, t, copied, newer);
    case _ =>
  }

  /** In every run a target's queue is what is left of the copied hints, followed by those stored since its round began. */
  lemma {:induction false} RunSplits(l: Limits, run: seq<Action>, t: Node)
    requires IsRun(l, START, run)
    ensures SplitsInto(QueueOf(StateAfter(l, START, run).hints, t), CopiedIn(l, run, t), Newer(l, run, t))
  {
    if run == [] {
      SplitStarts([]);
    } else {
      var init, a := run[..|run| - 1], run[|run| - 1];
      if a == StartTarget(t) {
        SplitStarts(QueueOf(StateAfter(l, START, init).hints, t));
      } else {
        RunSplits(l, init, t);
        StepSplits(l, StateAfter(l, START, init), a, t, CopiedIn(l, init, t), Newer(l, init, t));
      }
    }
  }

  predicate HasKey(q: seq<Hint>, key: string) { exists h :: h in q && h.key == key }

  /** The key was stored for the target since its round began, and not dropped since. */
  ghost predicate StoredSince(l: Limits, run: seq<Action>, t: Node, key: string)
    requires IsRun(l, START, run)
  {
    && run != []
    && var init, a := run[..|run| - 1], run[|run| - 1];
       if a.Store? && a.target == t && a.key == key then true
       else if a == StartTarget(t) || Drops(StateAfter(l, START, init), a, t, key) then false
       else StoredSince(l, init, t, key)
  }

  /** The step neither evicts nor expires a hint for `t` with the key. */
  predicate Spares(l: Limits, s: State, a: Action, t: Node, key: string) {
    var q := QueueOf(s.hints, t);
    match a
    case Store(u, _, _, _) => u == t && |q| >= l.maxSize && q != [] ==> q[0].key != key
    case Cleanup(at) => forall h :: h in q && h.key == key ==> Fits(h, at, l.maxAge)
    case _ => true
  }

  /** No hint for `t` with the key was evicted or expired since its round began. */
  ghost predicate SparesKey(l: Limits, run: seq<Action>, t: Node, key: string)
    requires IsRun(l, START, run)
  {
    run == [] || run[|run| - 1] == StartTarget(t) ||
    (var init := run[..|run| - 1]; SparesKey(l, init, t, key) && Spares(l, StateAfter(l, START, init), run[|run| - 1], t, key))
  }

  /** One step on the newer hints with the key, when it spares them. */
  lemma NewerKeyStep(l: Limits, s: State, a: Action, t: Node, key: string, copied: seq<Hint>, newer: seq<Hint>)
    requires Enabled(l, s, a) && SplitsInto(QueueOf(s.hints, t), copied, newer) && Spares(l, s, a, t, key) && a != StartTarget(t)
    ensures HasKey(NewerAfter(l, s, a, t, newer), key) <==>
            || (a.Store? && a.target == t && a.key == key)
            || (!Drops(s, a, t, key) && HasKey(newer, key))
  {
    var q := QueueOf(s.hints, t);
    match a
    case Store(u, k, copy, at) => if u == t { NewerKeyStored(l, q, copied, newer, Hint(t, k, copy, at, 0), key); }
    case Cleanup(at) => NewerKeyExpired(q, copied, newer, at, l.maxAge, key);
    case Refuse => BumpedKeys(newer, s.phase.rest[0].key, key);
    case Accept => DroppedKeys(newer, s.phase.rest[0].key, key);
    case GiveUp => DroppedKeys(newer, s.phase.rest[0].key, key);
    case _ =>
  }

  lemma NewerKeyStored(l: Limits, q: seq<Hint>, copied: seq<Hint>, newer: seq<Hint>, h: Hint, key: string)
    requires SplitsInto(q, copied, newer) && (|q| >= l.maxSize ==> q != [] && q[0].key != key)
    ensures HasKey((if |q| >= l.maxSize && |newer| == |q| then newer[1..] else newer) + [h], key) <==> h.key == key || HasKey(newer, key)
  {
    var kept :| IsSplit(q, copied, newer, kept);
    StoredKeys(newer, h, |q| >= l.maxSize && |newer| == |q|, key);
  }

  lemma NewerKeyExpired(q: seq<Hint>, copied: seq<Hint>, newer: seq<Hint>, at: int, maxAge: int, key: string)
    requires SplitsInto(q, copied, newer) && forall h :: h in q && h.key == key ==> Fits(h, at, maxAge)
    ensures HasKey(Unexpired(newer, at, maxAge), key) <==> HasKey(newer, key)
  {
    var kept :| IsSplit(q, copied, newer, kept);
    forall h: Hint | h.key == key
      ensures h in Unexpired(newer, at, maxAge) <==> h in newer
    {
      UnexpiredMembers(newer, at, maxAge, h);
      assert h in newer ==> h in q;
    }
  }

  lemma StoredKeys(newer: seq<Hint>, h: Hint, evicts: bool, key: string)
    requires evicts && newer != [] ==> newer[0].key != key
    requires evicts ==> newer != []
    ensures HasKey((if evicts then newer[1..] else newer) + [h], key) <==> h.key == key || HasKey(newer, key)
  {
    var after := (if evicts then newer[1..] else newer) + [h];
    if h.key == key { assert h in after; }
    if HasKey(newer, key) {
      var g :| g in newer && g.key == key;
      assert g in after;
    }
  }

  lemma BumpedKeys(q: seq<Hint>, bumped: string, key: string)
    ensures HasKey(Bumped(q, bumped), key) <==> HasKey(q, key)
  {
    assert forall i :: 0 <= i < |q| ==> Bumped(q, bumped)[i].key == q[i].key;
    if HasKey(q, key) {
      var i :| 0 <= i < |q| && q[i].key == key;
      assert Bumped(q, bumped)[i] in Bumped(q, bumped);
    }
  }

  lemma DroppedKeys(q: seq<Hint>, dropped: string, key: string)
    ensures HasKey(WithoutKey(q, dropped), key) <==> dropped != key && HasKey(q, key)
  {
    forall h: Hint | h.key == key
      ensures h in WithoutKey(q, dropped) <==> h in q && dropped != key
    {
      WithoutKeyMembers(q, dropped, h);
    }
  }

  lemma {:induction false} NewerKeyExactly(l: Limits, run: seq<Action>, t: Node, key: string)
    requires IsRun(l, START, run) && SparesKey(l, run, t, key)
    ensures HasKey(Newer(l, run, t), key) <==> StoredSince(l, run, t, key)
  {
    if run == [] || run[|run| - 1] == StartTarget(t) {
      assert Newer(l, run, t) == [];
    } else {
      var init := run[..|run| - 1];
      NewerKeyExactly(l, init, t, key);
      RunSplits(l, init, t);
      NewerKeyStep(l, StateAfter(l, START, init), run[|run| - 1], t, key, CopiedIn(l, init, t), Newer(l, init, t));
    }
  }

  /**
   * A delivery or a giving up takes the key's hints off the queue, newer ones that were never sent
   * included. With no eviction or expiry of the key's hints since the target's round began, it takes
   * such a one exactly when the key was stored since then.
   */
  lemma DropsNewerExactly(l: Limits, run: seq<Action>, a: Action, t: Node, key: string)
    requires IsRun(l, START, run) && Enabled(l, StateAfter(l, START, run), a) && Drops(StateAfter(l, START, run), a, t, key)
    requires SparesKey(l, run, t, key)
    ensures SplitsInto(QueueOf(StateAfter(l, START, run).hints, t), CopiedIn(l, run, t), Newer(l, run, t))
    ensures SplitsInto(QueueOf(Step(l, StateAfter(l, START, run), a).hints, t), CopiedIn(l, run, t), WithoutKey(Newer(l, run, t), key))
    ensures HasKey(Newer(l, run, t), key) <==> StoredSince(l, run, t, key)
  {
    RunSplits(l, run, t);
    SplitDropped(QueueOf(StateAfter(l, START, run).hints, t), CopiedIn(l, run, t), Newer(l, run, t), key);
    NewerKeyExactly(l, run, t, key);
  }

  function Pair(t: Node, key: string, first: Q.Copy, second: Q.Copy): seq<Hint> {
    [Hint(t, key, first, 0, 0), Hint(t, key, second, 0, 0)]
  }

  lemma FirstStored(l: Limits, t: Node, key: string, first: Q.Copy)
    requires 2 <= l.maxSize
    ensures var one := [Hint(t, key, first, 0, 0)];
            && Enabled(l, START, Store(t, key, first, 0))
            && Step(l, START, Store(t, key, first, 0)) == State(map[t := one], Resting, 0, map[t := one])
  {
    var h := Hint(t, key, first, 0, 0);
    assert [] + [h] == [h] && Stored([], h, l.maxSize) == [h];
  }

  lemma SecondStored(l: Limits, t: Node, key: string, first: Q.Copy, second: Q.Copy)
    requires 2 <= l.maxSize
    ensures var one, two := [Hint(t, key, first, 0, 0)], Pair(t, key, first, second);
            var s := State(map[t := one], Delivering(t, one), 0, map[t := one]);
            && Enabled(l, s, Store(t, key, second, 0))
            && Step(l, s, Store(t, key, second, 0)) == State(map[t := two], Delivering(t, one), 0, map[t := two])
  {
    var one, two := [Hint(t, key, first, 0, 0)], Pair(t, key, first, second);
    var h := Hint(t, key, second, 0, 0);
    var hints: Hints := map[t := one];
    var s := State(hints, Delivering(t, one), 0, hints);
    assert one + [h] == two && Stored(one, h, l.maxSize) == two;
    assert hints[t := two] == map[t := two];
    assert Step(l, s, Store(t, key, second, 0)) == State(hints[t := Stored(QueueOf(hints, t), h, l.maxSize)], Delivering(t, one), 0, hints[t := QueueOf(hints, t) + [h]]);
  }

  lemma BothDropped(l: Limits, t: Node, key: string, first: Q.Copy, second: Q.Copy)
    ensures var one, two := [Hint(t, key, first, 0, 0)], Pair(t, key, first, second);
            var s := State(map[t := two], Delivering(t, one), 0, map[t := two]);
            && Enabled(l, s, Accept)
            && Step(l, s, Accept) == State(map[], Delivering(t, []), 0, map[t := two])
  {
    var two := Pair(t, key, first, second);
    assert two[..1] == [two[0]] && two[..1][..0] == [];
    assert WithoutKey(two[..1], key) == [];
    assert WithoutKey(two, key) == [];
    var hints: Hints := map[t := two];
    assert QueueOf(hints, t) == two;
    assert hints - {t} == map[];
    assert [two[0]][1..] == [];
  }

  /** A run in which a hint is stored after the queue was copied and leaves without ever being sent. */
  lemma DroppedUnsent(l: Limits, t: Node, key: string, first: Q.Copy, second: Q.Copy) returns (run: seq<Action>)
    requires 2 <= l.maxSize
    ensures IsRun(l, START, run) && StateAfter(l, START, run) == State(map[], Delivering(t, []), 0, map[t := Pair(t, key, first, second)])
    ensures CopiedIn(l, run, t) == [Hint(t, key, first, 0, 0)]
  {
    FirstStored(l, t, key, first);
    run := AddTo(l, [], Store(t, key, first, 0), t);
    run := AddTo(l, run, StartTarget(t), t);
    SecondStored(l, t, key, first, second);
    run := AddTo(l, run, Store(t, key, second, 0), t);
    BothDropped(l, t, key, first, second);
    run := AddTo(l, run, Accept, t);
  }

  lemma AddTo(l: Limits, run: seq<Action>, a: Action, t: Node) returns (more: seq<Action>)
    requires IsRun(l, START, run) && Enabled(l, StateAfter(l, START, run), a)
    ensures IsRun(l, START, more) && StateAfter(l, START, more) == Step(l, StateAfter(l, START, run), a)
    ensures CopiedIn(l, more, t) == if a == StartTarget(t) then QueueOf(StateAfter(l, START, run).hints, t) else CopiedIn(l, run, t)
  {
    more := run + [a];
    ExtendRun(l, START, run, a, t);
    assert more[..|more| - 1] == run;
  }
}
