/** Vector clocks: a map of counters with absent components read as zero. */
module VectorClock {
  import opened Codec
  import opened Types

  type Clock = map<Node, uint64>

  function At(c: Clock, n: Node): uint64 { if n in c then c[n] else 0 }

  /** One more on a component; a uint64 wraps. */
  function Increment(c: Clock, n: Node): Clock { c[n := (At(c, n) + 1) % SPACE] }

  lemma IncrementAt(c: Clock, n: Node, m: Node)
    requires At(c, n) + 1 < SPACE
    ensures At(Increment(c, n), m) == At(c, m) + if m == n then 1 else 0
  {
  }

  function Max(x: uint64, y: uint64): uint64 { if x < y then y else x }

  /** The clock `Merge` builds: all of `a`, and what `b` holds above it. */
  function Merged(a: Clock, b: Clock): Clock {
    map n | n in a.Keys + b.Keys && (n in a || b[n] > 0) :: Max(At(a, n), At(b, n))
  }

  ghost predicate Leq(a: Clock, b: Clock) { forall n :: At(a, n) <= At(b, n) }

  ghost predicate SomeBelow(a: Clock, b: Clock) { exists n :: At(a, n) < At(b, n) }

  /** -1 below, 1 above, 0 otherwise. */
  ghost function Compared(a: Clock, b: Clock): int {
    if SomeBelow(a, b) && !SomeBelow(b, a) then -1
    else if SomeBelow(b, a) && !SomeBelow(a, b) then 1
    else 0
  }

  // ------------------------------------------------------------------ methods

  method Merge(a: Clock, b: Clock) returns (result: Clock)
    ensures result == Merged(a, b)
  {
    result := a;
    var rest := b.Keys;
    while rest != {}
      invariant rest <= b.Keys
      invariant forall n :: n in result <==> n in a || (n in b && n !in rest && b[n] > 0)
      invariant forall n :: n in result ==> result[n] == if n in rest then At(a, n) else Max(At(a, n), At(b, n))
    {
      var n :| n in rest;
      if b[n] > At(result, n) {
        result := result[n := b[n]];
      }
      rest := rest - {n};
    }
  }

  method Compare(a: Clock, b: Clock) returns (order: int)
    ensures order == Compared(a, b)
  {
    var less, greater := false, false;
    var rest := a.Keys + b.Keys;
    while rest != {}
      invariant rest <= a.Keys + b.Keys
      invariant less <==> exists n | n !in rest :: At(a, n) < At(b, n)
      invariant greater <==> exists n | n !in rest :: At(b, n) < At(a, n)
    {
      var n :| n in rest;
      if At(a, n) < At(b, n) {
        less := true;
      }
      if At(a, n) > At(b, n) {
        greater := true;
      }
      rest := rest - {n};
    }
    if less && !greater {
      return -1;
    }
    if greater && !less {
      return 1;
    }
    return 0;
  }

  // --------------------------------------------------------------------- order

  lemma LeqMeans(a: Clock, b: Clock)
    ensures Leq(a, b) <==> !SomeBelow(b, a)
  {
  }

  /** A negative comparison is a strict partial order, and swapping the arguments flips the sign. */
  lemma StrictOrder(a: Clock, b: Clock, c: Clock)
    ensures Compared(a, b) < 0 <==> Leq(a, b) && !Leq(b, a)
    ensures Compared(b, a) == -Compared(a, b)
    ensures Compared(a, a) == 0
    ensures Compared(a, b) < 0 && Compared(b, c) < 0 ==> Compared(a, c) < 0
  {
    LeqMeans(a, b);
    LeqMeans(b, a);
    LeqMeans(b, c);
    LeqMeans(c, b);
    LeqMeans(a, c);
    LeqMeans(c, a);
  }

  // --------------------------------------------------------------------- merge

  lemma MergedAt(a: Clock, b: Clock, n: Node)
    ensures At(Merged(a, b), n) == Max(At(a, n), At(b, n))
  {
  }

  /** A merge lists what the first clock lists, and of the second what is above zero. */
  lemma MergedLists(a: Clock, b: Clock, n: Node)
    ensures n in Merged(a, b) <==> n in a || At(b, n) > 0
    ensures n in Merged(a, b) ==> Merged(a, b)[n] == if At(b, n) > At(a, n) then At(b, n) else At(a, n)
  {
  }

  /** Merging is the least upper bound. */
  lemma MergeIsLeastUpperBound(a: Clock, b: Clock, c: Clock)
    ensures Leq(a, Merged(a, b)) && Leq(b, Merged(a, b))
    ensures Leq(a, c) && Leq(b, c) ==> Leq(Merged(a, b), c)
  {
    forall n
      ensures At(Merged(a, b), n) == Max(At(a, n), At(b, n))
    {
      MergedAt(a, b, n);
    }
  }

  /** Pointwise, merging is commutative, associative and idempotent. */
  lemma MergeLaws(a: Clock, b: Clock, c: Clock, n: Node)
    ensures At(Merged(a, b), n) == At(Merged(b, a), n)
    ensures At(Merged(Merged(a, b), c), n) == At(Merged(a, Merged(b, c)), n)
    ensures At(Merged(a, a), n) == At(a, n)
  {
    MergedAt(a, b, n);
    MergedAt(b, a, n);
    MergedAt(b, c, n);
    MergedAt(Merged(a, b), c, n);
    MergedAt(a, Merged(b, c), n);
    MergedAt(a, a, n);
  }
}
