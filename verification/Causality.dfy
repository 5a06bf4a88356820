/**
 * Every node keeps a clock for a key, increments it for its own events and merges clocks other
 * nodes returned. The clocks characterise causality.
 */
module Causality {
  import opened Codec
  import opened Types
  import opened VectorClock

  // --------------------------------------------------------------- the object

  function ClockOf(clocks: map<string, Clock>, key: string): Clock { if key in clocks then clocks[key] else map[] }

  class VectorClockManager {
    const node: Node
    var clocks: map<string, Clock>

    constructor (node: Node)
      ensures this.node == node && clocks == map[]
    {
      this.node := node;
      clocks := map[];
    }

    method Get(key: string) returns (clock: Clock)
      ensures clock == ClockOf(clocks, key)
    {
      if key in clocks {
        return clocks[key];
      }
      return map[];
    }

    method IncrementKey(key: string) returns (clock: Clock)
      modifies this
      ensures clock == Increment(ClockOf(old(clocks), key), node)
      ensures clocks == old(clocks)[key := clock]
    {
      if key !in clocks {
        clocks := clocks[key := map[]];
      }
      clocks := clocks[key := Increment(clocks[key], node)];
      return clocks[key];
    }

    method Update(key: string, other: Clock) returns (clock: Clock)
      modifies this
      ensures clock == Merged(ClockOf(old(clocks), key), other)
      ensures clocks == old(clocks)[key := clock]
    {
      if key !in clocks {
        clocks := clocks[key := map[]];
      }
      var merged := Merge(clocks[key], other);
      clocks := clocks[key := merged];
      return clocks[key];
    }
  }

  // ---------------------------------------------------------------------- runs

  /**
   * An event on one key: a node increments its clock, or updates it with the clock that event
   * `source` returned; source -1 is the empty clock of a node that has none yet.
   */
  datatype Event = Inc(node: Node) | Upd(node: Node, source: int)

  predicate IsRun(run: seq<Event>) {
    && |run| < SPACE
    && forall i :: 0 <= i < |run| && run[i].Upd? ==> -1 <= run[i].source < i
  }

  /** The clocks of all nodes after the first `t` events. */
  function ClocksAfter(run: seq<Event>, t: nat): (clocks: map<Node, Clock>)
    requires IsRun(run) && t <= |run|
    ensures t > 0 ==> run[t - 1].node in clocks
    decreases t, 0
  {
    if t == 0 then map[]
    else
      var before := ClocksAfter(run, t - 1);
      var e := run[t - 1];
      var own := ClockOf(before, e.node);
      before[e.node := if e.Inc? then Increment(own, e.node) else Merged(own, Returned(run, e.source))]
  }

  /** The clock event `i` returned to its caller. */
  function Returned(run: seq<Event>, i: int): Clock
    requires IsRun(run) && -1 <= i < |run|
    decreases i + 1, 1
  {
    if i == -1 then map[] else ClocksAfter(run, i + 1)[run[i].node]
  }

  /** The last event of a node among the first `t`, or -1. */
  function LastOf(run: seq<Event>, t: nat, n: Node): (p: int)
    requires t <= |run|
    ensures -1 <= p < t
    ensures p >= 0 ==> run[p].node == n
    ensures forall i :: p < i < t ==> run[i].node != n
  {
    if t == 0 then -1 else if run[t - 1].node == n then t - 1 else LastOf(run, t - 1, n)
  }

  /** The event before `i` at the same node, or -1. */
  function Previous(run: seq<Event>, i: nat): (p: int)
    requires i < |run|
    ensures -1 <= p < i
  {
    LastOf(run, i, run[i].node)
  }

  /** `e` happened before `f`: a chain of same-node order and of clocks handed over leads from one to the other. */
  predicate HappenedBefore(run: seq<Event>, e: nat, f: int)
    requires IsRun(run) && -1 <= f < |run|
    decreases f
  {
    f >= 0 && (
      || Previous(run, f) == e || HappenedBefore(run, e, Previous(run, f))
      || (run[f].Upd? && (run[f].source == e || HappenedBefore(run, e, run[f].source))))
  }

  // ------------------------------------------------------- what the clocks hold

  lemma {:induction false} CurrentClock(run: seq<Event>, t: nat, n: Node)
    requires IsRun(run) && t <= |run|
    ensures ClockOf(ClocksAfter(run, t), n) == Returned(run, LastOf(run, t, n))
  {
    if t > 0 && run[t - 1].node != n { CurrentClock(run, t - 1, n); }
  }

  lemma ReturnedStep(run: seq<Event>, i: nat)
    requires IsRun(run) && i < |run|
    ensures Returned(run, i) ==
            if run[i].Inc? then Increment(Returned(run, Previous(run, i)), run[i].node)
            else Merged(Returned(run, Previous(run, i)), Returned(run, run[i].source))
  {
    CurrentClock(run, i, run[i].node);
  }

  /** Counters stay below the number of events, so no increment wraps. */
  lemma {:induction false} Bounded(run: seq<Event>, i: int, n: Node)
    requires IsRun(run) && -1 <= i < |run|
    ensures At(Returned(run, i), n) <= i + 1
    decreases i + 1
  {
    if i >= 0 {
      ReturnedStep(run, i);
      Bounded(run, Previous(run, i), n);
      if run[i].Upd? {
        Bounded(run, run[i].source, n);
        MergedAt(Returned(run, Previous(run, i)), Returned(run, run[i].source), n);
      }
    }
  }

  lemma Components(run: seq<Event>, i: nat, n: Node)
    requires IsRun(run) && i < |run|
    ensures run[i].Inc? ==>
              At(Returned(run, i), n) == At(Returned(run, Previous(run, i)), n) + if n == run[i].node then 1 else 0
    ensures run[i].Upd? ==>
              At(Returned(run, i), n) == Max(At(Returned(run, Previous(run, i)), n), At(Returned(run, run[i].source), n))
  {
    ReturnedStep(run, i);
    var own := Returned(run, Previous(run, i));
    if run[i].Upd? {
      MergedAt(own, Returned(run, run[i].source), n);
    } else {
      Bounded(run, Previous(run, i), run[i].node);
      IncrementAt(own, run[i].node, n);
    }
  }

  lemma {:induction false} CausesBelow(run: seq<Event>, e: nat, f: int, n: Node)
    requires IsRun(run) && e < |run| && -1 <= f < |run| && HappenedBefore(run, e, f)
    ensures e < f && At(Returned(run, e), n) <= At(Returned(run, f), n)
    decreases f
  {
    Components(run, f, n);
    var p := Previous(run, f);
    if p != e && HappenedBefore(run, e, p) {
      CausesBelow(run, e, p, n);
    } else if p != e && run[f].source != e {
      CausesBelow(run, e, run[f].source, n);
    }
  }

  lemma {:induction false} SameNodeOrdered(run: seq<Event>, i: nat, j: nat)
    requires IsRun(run) && i < j < |run| && run[i].node == run[j].node
    ensures HappenedBefore(run, i, j)
    decreases j
  {
    if Previous(run, j) != i { SameNodeOrdered(run, i, Previous(run, j)); }
  }

  /** A node's own counter tells its increments apart. */
  lemma OwnCounterGrows(run: seq<Event>, i: nat, j: nat)
    requires IsRun(run) && i < j < |run| && run[i].node == run[j].node && run[j].Inc?
    ensures At(Returned(run, i), run[j].node) < At(Returned(run, j), run[j].node)
  {
    var n, p := run[j].node, Previous(run, j);
    Components(run, j, n);
    if p != i {
      SameNodeOrdered(run, i, p);
      CausesBelow(run, i, p, n);
    }
  }

  /** No node's component for `n` exceeds `n`'s own. */
  lemma {:induction false} OwnComponentIsGreatest(run: seq<Event>, t: nat, m: Node, n: Node)
    requires IsRun(run) && t <= |run|
    ensures At(ClockOf(ClocksAfter(run, t), m), n) <= At(ClockOf(ClocksAfter(run, t), n), n)
  {
    CurrentClock(run, t, m);
    CurrentClock(run, t, n);
    ReturnedBelowOwn(run, t, LastOf(run, t, m), n);
  }

  lemma {:induction false} ReturnedBelowOwn(run: seq<Event>, t: nat, i: int, n: Node)
    requires IsRun(run) && -1 <= i && i < t <= |run|
    ensures At(Returned(run, i), n) <= At(Returned(run, LastOf(run, t, n)), n)
    decreases i + 1
  {
    if i >= 0 {
      if run[i].node == n {
        var own := LastOf(run, t, n);
        if own != i {
          SameNodeOrdered(run, i, own);
          CausesBelow(run, i, own, n);
        }
      } else {
        Components(run, i, n);
        ReturnedBelowOwn(run, t, Previous(run, i), n);
        if run[i].Upd? { ReturnedBelowOwn(run, t, run[i].source, n); }
      }
    }
  }

  /** A clock that counts an increment was reached by it. */
  lemma {:induction false} CountedIsCause(run: seq<Event>, e: nat, f: int)
    requires IsRun(run) && e < |run| && -1 <= f < |run| && run[e].Inc?
    requires At(Returned(run, e), run[e].node) <= At(Returned(run, f), run[e].node)
    ensures e == f || HappenedBefore(run, e, f)
    decreases f + 1
  {
    var n := run[e].node;
    Components(run, e, n);
    if f >= 0 && f != e {
      Components(run, f, n);
      if run[f].Upd? {
        if At(Returned(run, e), n) <= At(Returned(run, Previous(run, f)), n) {
          CountedIsCause(run, e, Previous(run, f));
        } else {
          CountedIsCause(run, e, run[f].source);
        }
      } else if At(Returned(run, e), n) <= At(Returned(run, Previous(run, f)), n) {
        CountedIsCause(run, e, Previous(run, f));
      } else if e < f {
        OwnCounterGrows(run, e, f);
      } else {
        OwnCounterGrows(run, f, e);
      }
    }
  }

  /** Vector clocks characterise causality: one increment happened before another iff its clock compares below. */
  lemma ClocksCharacteriseCausality(run: seq<Event>, e: nat, f: nat)
    requires IsRun(run) && e < |run| && f < |run| && run[e].Inc? && run[f].Inc?
    ensures HappenedBefore(run, e, f) <==> Compared(Returned(run, e), Returned(run, f)) < 0
    ensures Compared(Returned(run, e), Returned(run, f)) == 0 <==> !HappenedBefore(run, e, f) && !HappenedBefore(run, f, e)
  {
    BelowIffCause(run, e, f);
    BelowIffCause(run, f, e);
    StrictOrder(Returned(run, e), Returned(run, f), Returned(run, e));
  }

  lemma BelowIffCause(run: seq<Event>, e: nat, f: nat)
    requires IsRun(run) && e < |run| && f < |run| && run[e].Inc? && run[f].Inc?
    ensures HappenedBefore(run, e, f) <==> Compared(Returned(run, e), Returned(run, f)) < 0
  {
    var a, b := Returned(run, e), Returned(run, f);
    StrictOrder(a, b, a);
    if HappenedBefore(run, e, f) {
      forall n
        ensures At(a, n) <= At(b, n)
      {
        CausesBelow(run, e, f, n);
      }
      CausesBelow(run, e, f, run[f].node);
      if At(b, run[f].node) <= At(a, run[f].node) {
        CountedIsCause(run, f, e);
        CausesBelow(run, f, e, run[f].node);
      }
      assert At(a, run[f].node) < At(b, run[f].node);
    } else if Compared(a, b) < 0 {
      CountedIsCause(run, e, f);
    }
  }
}
