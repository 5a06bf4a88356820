/** Token ranges, their sizes in 64-bit arithmetic, and the neighbours of a node on the ring. */
module TokenRanges {
  import opened Codec
  import opened Ring
  import opened Sequences
  import opened HashRing
  import opened Types
  import opened VirtualNodes

  datatype TokenRange = TokenRange(start: uint64, end: uint64, node: Node)

  /** The range that ends at virtual node `i` and starts just after its predecessor, in uint64 arithmetic. */
  function RangeAt(v: seq<VNode>, i: nat): TokenRange
    requires i < |v|
  {
    var prev := if i == 0 then v[|v| - 1].hash else v[i - 1].hash;
    TokenRange((prev + 1) % SPACE, v[i].hash, v[i].node)
  }

  /** Membership in a circular range. */
  predicate InRange(r: TokenRange, h: uint64) {
    if r.start <= r.end then r.start <= h <= r.end else r.start <= h || h <= r.end
  }

  function Ranges(v: seq<VNode>): (rs: seq<TokenRange>)
    ensures |rs| == |v|
    ensures forall i :: 0 <= i < |v| ==> rs[i] == RangeAt(v, i)
  {
    seq(|v|, i requires 0 <= i < |v| => RangeAt(v, i))
  }

  method GetTokenRanges(v: seq<VNode>) returns (ranges: seq<TokenRange>)
    ensures ranges == Ranges(v)
  {
    ranges := [];
    for i := 0 to |v|
      invariant ranges == Ranges(v)[..i]
    {
      var start: uint64;
      if i == 0 {
        start := (v[|v| - 1].hash + 1) % SPACE;
      } else {
        start := (v[i - 1].hash + 1) % SPACE;
      }
      ranges := ranges + [TokenRange(start, v[i].hash, v[i].node)];
    }
  }

  // ---------------------------------------------------------------- partition

  ghost predicate ExactlyOneRange(v: seq<VNode>, h: uint64) {
    exists i | 0 <= i < |v| :: InRange(RangeAt(v, i), h) && OnlyRange(v, h, i)
  }

  ghost predicate OnlyRange(v: seq<VNode>, h: uint64, i: nat) {
    forall j :: 0 <= j < |v| && InRange(RangeAt(v, j), h) ==> j == i
  }

  /** The position whose virtual node answers for `h`. */
  function Responsible(v: seq<VNode>, h: uint64): (i: nat)
    requires v != []
    ensures i < |v| && v[i].node == Owner(v, h)
  {
    if FirstAtLeast(v, h) == |v| then 0 else FirstAtLeast(v, h)
  }

  lemma InnerRange(v: seq<VNode>, h: uint64, j: nat)
    requires StrictlySorted(v) && 0 < j < |v|
    ensures InRange(RangeAt(v, j), h) <==> v[j - 1].hash < h <= v[j].hash
  {
    assert v[j - 1].hash < v[j].hash;
  }

  lemma FirstRange(v: seq<VNode>, h: uint64)
    requires StrictlySorted(v) && v != []
    ensures InRange(RangeAt(v, 0), h) <==> h <= v[0].hash || v[|v| - 1].hash < h
  {
    assert 0 < |v| - 1 ==> v[0].hash < v[|v| - 1].hash;
  }

  lemma RangeIsResponsible(v: seq<VNode>, h: uint64, j: nat)
    requires StrictlySorted(v) && j < |v|
    ensures InRange(RangeAt(v, j), h) <==> j == Responsible(v, h)
  {
    var i := FirstAtLeast(v, h);
    if 0 < j {
      InnerRange(v, h, j);
      if i < j - 1 { assert h <= v[i].hash < v[j - 1].hash; }
    } else {
      FirstRange(v, h);
      if 0 < i < |v| - 1 { assert h <= v[i].hash < v[|v| - 1].hash; }
    }
  }

  lemma OneRange(v: seq<VNode>, h: uint64)
    requires StrictlySorted(v) && v != []
    ensures ExactlyOneRange(v, h)
  {
    var i := Responsible(v, h);
    forall j | 0 <= j < |v|
      ensures InRange(RangeAt(v, j), h) <==> j == i
    {
      RangeIsResponsible(v, h, j);
    }
    assert InRange(RangeAt(v, i), h) && OnlyRange(v, h, i);
  }

  lemma TiedRangeHoldsAll(v: seq<VNode>, j: nat, h: uint64)
    requires 0 < j < |v| && v[j - 1].hash == v[j].hash
    ensures InRange(RangeAt(v, j), h)
  {
  }

  lemma TieBreaksPartition(v: seq<VNode>)
    requires Sorted(v) && v != [] && !StrictlySorted(v)
    ensures !ExactlyOneRange(v, v[0].hash)
  {
    var i, j :| 0 <= i < j < |v| && v[j].hash <= v[i].hash;
    assert v[i].hash <= v[j - 1].hash <= v[j].hash;
    TiedRangeHoldsAll(v, j, v[0].hash);
    assert InRange(RangeAt(v, 0), v[0].hash);
  }

  /**
   * The ranges partition the hash space exactly when no two virtual nodes share a hash; then the
   * range of a hash carries the node that answers for it.
   */
  lemma RangesPartition(v: seq<VNode>)
    requires Sorted(v) && v != []
    ensures (forall h: uint64 :: ExactlyOneRange(v, h)) <==> StrictlySorted(v)
    ensures StrictlySorted(v) ==>
              forall h: uint64, j :: 0 <= j < |v| && InRange(RangeAt(v, j), h) ==> Ranges(v)[j].node == Owner(v, h)
  {
    if StrictlySorted(v) {
      forall h: uint64
        ensures ExactlyOneRange(v, h)
      {
        OneRange(v, h);
      }
      forall h: uint64, j | 0 <= j < |v| && InRange(RangeAt(v, j), h)
        ensures Ranges(v)[j].node == Owner(v, h)
      {
        RangeIsResponsible(v, h, j);
      }
    } else {
      TieBreaksPartition(v);
    }
  }

  // -------------------------------------------------------------------- sizes

  /** How many hashes a circular range holds. */
  function TrueSize(r: TokenRange): nat {
    if r.start <= r.end then r.end - r.start + 1 else SPACE - r.start + r.end + 1
  }

  /** The size as the code computes it: both branches wrap at 64 bits. */
  function WrappedSize(r: TokenRange): uint64 {
    if r.start <= r.end then (r.end - r.start + 1) % SPACE
    else ((SPACE - 1 - r.start) + r.end + 2) % SPACE
  }

  ghost function Interval(lo: nat, hi: nat): (s: set<uint64>)
    requires hi <= SPACE
    ensures forall h: uint64 :: h in s <==> lo <= h < hi
  {
    if hi <= lo then {} else Interval(lo, hi - 1) + {hi - 1}
  }

  lemma {:induction false} IntervalSize(lo: nat, hi: nat)
    requires lo <= hi <= SPACE
    ensures |Interval(lo, hi)| == hi - lo
    decreases hi - lo
  {
    if lo < hi { IntervalSize(lo, hi - 1); }
  }

  ghost function HashesIn(r: TokenRange): set<uint64> { set h: uint64 | InRange(r, h) }

  lemma HashesAreIntervals(r: TokenRange)
    ensures HashesIn(r) == if r.start <= r.end then Interval(r.start, r.end + 1) else Interval(r.start, SPACE) + Interval(0, r.end + 1)
  {
  }

  /** The size of a range is the number of hashes in it, and the code computes it modulo 2^64. */
  lemma SizeCountsHashes(r: TokenRange)
    ensures |HashesIn(r)| == TrueSize(r)
    ensures WrappedSize(r) == TrueSize(r) % SPACE
  {
    HashesAreIntervals(r);
    if r.start <= r.end {
      IntervalSize(r.start, r.end + 1);
    } else {
      IntervalSize(r.start, SPACE);
      IntervalSize(0, r.end + 1);
      assert Interval(r.start, SPACE) !! Interval(0, r.end + 1);
    }
  }

  function SumTrue(rs: seq<TokenRange>): nat {
    if rs == [] then 0 else SumTrue(rs[..|rs| - 1]) + TrueSize(rs[|rs| - 1])
  }

  lemma {:induction false} SumTelescopes(v: seq<VNode>, k: nat)
    requires StrictlySorted(v) && 0 < k <= |v|
    ensures SumTrue(Ranges(v)[..k]) == SPACE + v[k - 1].hash - v[|v| - 1].hash
  {
    var rs := Ranges(v);
    assert rs[..k][..k - 1] == rs[..k - 1];
    assert 0 < |v| - 1 ==> v[0].hash < v[|v| - 1].hash;
    if k > 1 {
      SumTelescopes(v, k - 1);
      assert v[k - 2].hash < v[k - 1].hash;
    } else {
      assert rs[..0] == [];
    }
  }

  /** As integers, the sizes of the ranges of a collision-free ring sum to the whole space. */
  lemma SizesSumToSpace(v: seq<VNode>)
    requires StrictlySorted(v) && v != []
    ensures SumTrue(Ranges(v)) == SPACE
  {
    SumTelescopes(v, |v|);
    assert Ranges(v)[..|v|] == Ranges(v);
  }

  /** The running total of the load computation, a uint64. */
  function TotalSpace(rs: seq<TokenRange>): uint64 {
    if rs == [] then 0 else (TotalSpace(rs[..|rs| - 1]) + WrappedSize(rs[|rs| - 1])) % SPACE
  }

  /** The load of one node, summed the same way. */
  function NodeLoad(rs: seq<TokenRange>, n: Node): uint64 {
    if rs == [] then 0
    else
      var before := NodeLoad(rs[..|rs| - 1], n);
      var r := rs[|rs| - 1];
      if r.node == n then (before + WrappedSize(r)) % SPACE else before
  }

  lemma WrappedStep(a: int, b: int, r: TokenRange)
    requires 0 <= a < SPACE && r.start == (a + 1) % SPACE && r.end == b
    ensures WrappedSize(r) == (b - a) % SPACE
  {
  }

  lemma AddModulo(x: int, y: int, z: int)
    ensures ((x - z) % SPACE + (y - x) % SPACE) % SPACE == (y - z) % SPACE
  {
    var a, b := (x - z) / SPACE, (y - x) / SPACE;
    assert x - z == SPACE * a + (x - z) % SPACE;
    assert y - x == SPACE * b + (y - x) % SPACE;
    Rounds((x - z) % SPACE + (y - x) % SPACE, a + b);
  }

  lemma Rounds(x: int, k: int)
    ensures (x + SPACE * k) % SPACE == x % SPACE
  {
    var q, r := x / SPACE, x % SPACE;
    assert x + SPACE * k == SPACE * (q + k) + r;
  }

  lemma {:induction false} TotalTelescopes(v: seq<VNode>, k: nat)
    requires 0 < k <= |v|
    ensures TotalSpace(Ranges(v)[..k]) == (v[k - 1].hash - v[|v| - 1].hash) % SPACE
  {
    if k > 1 {
      TotalTelescopes(v, k - 1);
      TotalStep(v, k);
    } else {
      TotalNext(Ranges(v), 1);
      WrappedAt(v, 0);
    }
  }

  lemma TotalStep(v: seq<VNode>, k: nat)
    requires 1 < k <= |v| && TotalSpace(Ranges(v)[..k - 1]) == (v[k - 2].hash - v[|v| - 1].hash) % SPACE
    ensures TotalSpace(Ranges(v)[..k]) == (v[k - 1].hash - v[|v| - 1].hash) % SPACE
  {
    TotalNext(Ranges(v), k);
    WrappedAt(v, k - 1);
    AddSize(v[k - 2].hash, v[k - 1].hash, v[|v| - 1].hash, TotalSpace(Ranges(v)[..k - 1]), WrappedSize(Ranges(v)[k - 1]));
  }

  lemma AddSize(x: int, y: int, z: int, total: int, size: int)
    requires total == (x - z) % SPACE && size == (y - x) % SPACE
    ensures (total + size) % SPACE == (y - z) % SPACE
  {
    AddModulo(x, y, z);
  }

  lemma WrappedAt(v: seq<VNode>, i: nat)
    requires i < |v|
    ensures WrappedSize(Ranges(v)[i]) == (v[i].hash - (if i == 0 then v[|v| - 1].hash else v[i - 1].hash)) % SPACE
  {
    WrappedStep(if i == 0 then v[|v| - 1].hash else v[i - 1].hash, v[i].hash, Ranges(v)[i]);
  }

  lemma TotalNext(rs: seq<TokenRange>, k: nat)
    requires 0 < k <= |rs|
    ensures TotalSpace(rs[..k]) == ((if k == 1 then 0 else TotalSpace(rs[..k - 1])) + WrappedSize(rs[k - 1])) % SPACE
  {
    assert rs[..k][..k - 1] == rs[..k - 1];
    assert k == 1 ==> rs[..0] == [];
  }

  /**
   * The total that the percentages are divided by is zero on every non-empty ring, sorted or
   * not, collisions or not.
   */
  lemma TotalSpaceIsZero(v: seq<VNode>)
    ensures TotalSpace(Ranges(v)) == 0
  {
    if v != [] {
      TotalTelescopes(v, |v|);
      assert Ranges(v)[..|v|] == Ranges(v);
    }
  }

  function SumTrueOf(rs: seq<TokenRange>, n: Node): nat {
    if rs == [] then 0
    else SumTrueOf(rs[..|rs| - 1], n) + if rs[|rs| - 1].node == n then TrueSize(rs[|rs| - 1]) else 0
  }

  lemma AddWrapped(a: nat, b: nat)
    ensures (a % SPACE + b % SPACE) % SPACE == (a + b) % SPACE
  {
    Rounds(a % SPACE + b % SPACE, a / SPACE + b / SPACE);
  }

  lemma SizePositive(r: TokenRange)
    ensures TrueSize(r) > 0
  {
  }

  lemma {:induction false} LoadIsWrappedSum(rs: seq<TokenRange>, n: Node)
    ensures NodeLoad(rs, n) == SumTrueOf(rs, n) % SPACE
    ensures SumTrueOf(rs, n) <= SumTrue(rs)
    ensures (exists i :: 0 <= i < |rs| && rs[i].node != n) ==> SumTrueOf(rs, n) < SumTrue(rs)
    ensures (forall i :: 0 <= i < |rs| ==> rs[i].node == n) ==> SumTrueOf(rs, n) == SumTrue(rs)
  {
    if rs == [] {
    } else {
      var init, r := rs[..|rs| - 1], rs[|rs| - 1];
      LoadIsWrappedSum(init, n);
      SizePositive(r);
      LoadNext(rs, n);
      assert forall i :: 0 <= i < |init| ==> init[i] == rs[i];
    }
  }

  lemma LoadNext(rs: seq<TokenRange>, n: Node)
    requires rs != [] && NodeLoad(rs[..|rs| - 1], n) == SumTrueOf(rs[..|rs| - 1], n) % SPACE
    ensures NodeLoad(rs, n) == SumTrueOf(rs, n) % SPACE
  {
    SizeCountsHashes(rs[|rs| - 1]);
    AddWrapped(SumTrueOf(rs[..|rs| - 1], n), TrueSize(rs[|rs| - 1]));
  }

  /** The hashes that fall in one of the first `k` ranges, in a range of node `n`. */
  ghost function OwnedHashes(rs: seq<TokenRange>, place: uint64 -> nat, k: nat, n: Node): set<uint64>
    requires k <= |rs|
  {
    set h: uint64 | place(h) < k && rs[place(h)].node == n
  }

  ghost predicate Places(rs: seq<TokenRange>, place: uint64 -> nat) {
    forall h: uint64, j :: 0 <= j < |rs| ==> (InRange(rs[j], h) <==> place(h) == j)
  }

  lemma OwnedStep(rs: seq<TokenRange>, place: uint64 -> nat, k: nat, n: Node)
    requires Places(rs, place) && k < |rs|
    ensures |OwnedHashes(rs, place, k + 1, n)| == |OwnedHashes(rs, place, k, n)| + if rs[k].node == n then TrueSize(rs[k]) else 0
  {
    var before, after := OwnedHashes(rs, place, k, n), OwnedHashes(rs, place, k + 1, n);
    SizeCountsHashes(rs[k]);
    if rs[k].node == n {
      assert after == before + HashesIn(rs[k]);
      assert before !! HashesIn(rs[k]);
    } else {
      assert after == before;
    }
  }

  lemma {:induction false} OwnedCount(rs: seq<TokenRange>, place: uint64 -> nat, k: nat, n: Node)
    requires Places(rs, place) && k <= |rs|
    ensures |OwnedHashes(rs, place, k, n)| == SumTrueOf(rs[..k], n)
  {
    if k == 0 {
      assert OwnedHashes(rs, place, 0, n) == {};
    } else {
      OwnedCount(rs, place, k - 1, n);
      OwnedStep(rs, place, k - 1, n);
      assert rs[..k][..k - 1] == rs[..k - 1];
    }
  }

  lemma RangesPlace(v: seq<VNode>)
    requires StrictlySorted(v) && v != []
    ensures Places(Ranges(v), (h: uint64) => Responsible(v, h))
  {
    forall h: uint64, j | 0 <= j < |v|
      ensures InRange(Ranges(v)[j], h) <==> Responsible(v, h) == j
    {
      RangeIsResponsible(v, h, j);
    }
  }

  lemma OwnedByOwner(v: seq<VNode>, n: Node)
    requires StrictlySorted(v) && v != []
    ensures OwnedHashes(Ranges(v), (h: uint64) => Responsible(v, h), |v|, n) == HashesOwned(v, n)
  {
    var place := (h: uint64) => Responsible(v, h);
    forall h: uint64
      ensures h in OwnedHashes(Ranges(v), place, |v|, n) <==> h in HashesOwned(v, n)
    {
      assert Ranges(v)[place(h)].node == v[Responsible(v, h)].node;
    }
  }

  /** The hashes a lookup sends to node `n`. */
  ghost function HashesOwned(v: seq<VNode>, n: Node): set<uint64>
    requires v != []
  {
    set h: uint64 | Owner(v, h) == n
  }

  lemma OwnedSize(v: seq<VNode>, n: Node)
    requires StrictlySorted(v) && v != []
    ensures |HashesOwned(v, n)| == SumTrueOf(Ranges(v), n)
  {
    RangesPlace(v);
    OwnedCount(Ranges(v), (h: uint64) => Responsible(v, h), |v|, n);
    OwnedByOwner(v, n);
    assert Ranges(v)[..|v|] == Ranges(v);
  }

  /** A load wraps only when it is the whole space. */
  lemma LoadWraps(rs: seq<TokenRange>, n: Node)
    requires SumTrue(rs) == SPACE
    ensures (exists i :: 0 <= i < |rs| && rs[i].node != n) ==> NodeLoad(rs, n) == SumTrueOf(rs, n)
    ensures (forall i :: 0 <= i < |rs| ==> rs[i].node == n) ==> NodeLoad(rs, n) == 0
  {
    LoadIsWrappedSum(rs, n);
  }

  /**
   * On a collision-free ring a node's load is exactly the number of hashes whose owner it is,
   * unless it owns the whole space, when the load wraps to zero.
   */
  lemma LoadIsExactShare(v: seq<VNode>, n: Node)
    requires StrictlySorted(v) && v != []
    ensures NodeLoad(Ranges(v), n) == if exists i :: 0 <= i < |v| && v[i].node != n then |HashesOwned(v, n)| else 0
  {
    SizesSumToSpace(v);
    OwnedSize(v, n);
    var rs := Ranges(v);
    if i :| 0 <= i < |v| && v[i].node != n {
      assert rs[i].node != n;
      LoadWraps(rs, n);
    } else {
      assert forall i :: 0 <= i < |rs| ==> rs[i].node == v[i].node;
      LoadWraps(rs, n);
    }
  }

  function LoadOf(loads: map<Node, uint64>, n: Node): uint64 { if n in loads then loads[n] else 0 }

  lemma LoadStep(rs: seq<TokenRange>, i: nat, n: Node)
    requires i < |rs|
    ensures TotalSpace(rs[..i + 1]) == (TotalSpace(rs[..i]) + WrappedSize(rs[i])) % SPACE
    ensures NodeLoad(rs[..i + 1], n) ==
            if rs[i].node == n then (NodeLoad(rs[..i], n) + WrappedSize(rs[i])) % SPACE else NodeLoad(rs[..i], n)
  {
    assert rs[..i + 1][..i] == rs[..i];
  }

  ghost predicate LoadsMatch(loads: map<Node, uint64>, rs: seq<TokenRange>, i: nat)
    requires i <= |rs|
  {
    forall n: Node :: LoadOf(loads, n) == NodeLoad(rs[..i], n)
  }

  lemma LoadsMatchStep(loads: map<Node, uint64>, rs: seq<TokenRange>, i: nat)
    requires i < |rs| && LoadsMatch(loads, rs, i)
    ensures LoadsMatch(loads[rs[i].node := (LoadOf(loads, rs[i].node) + WrappedSize(rs[i])) % SPACE], rs, i + 1)
  {
    var size := (LoadOf(loads, rs[i].node) + WrappedSize(rs[i])) % SPACE;
    var after := loads[rs[i].node := size];
    forall n: Node
      ensures LoadOf(after, n) == NodeLoad(rs[..i + 1], n)
    {
      LoadStep(rs, i, n);
    }
  }

  /** Summing the sizes per node and in all, in uint64 arithmetic. */
  method SumLoads(rs: seq<TokenRange>) returns (nodeLoad: map<Node, uint64>, totalSpace: uint64)
    ensures totalSpace == TotalSpace(rs)
    ensures forall n: Node :: LoadOf(nodeLoad, n) == NodeLoad(rs, n)
    ensures forall n: Node :: n in nodeLoad <==> exists i :: 0 <= i < |rs| && rs[i].node == n
  {
    nodeLoad, totalSpace := map[], 0;
    for i := 0 to |rs|
      invariant totalSpace == TotalSpace(rs[..i])
      invariant LoadsMatch(nodeLoad, rs, i)
      invariant forall n: Node :: n in nodeLoad <==> exists k :: 0 <= k < i && rs[k].node == n
    {
      LoadsMatchStep(nodeLoad, rs, i);
      LoadStep(rs, i, rs[i].node);
      var size := WrappedSize(rs[i]);
      nodeLoad := nodeLoad[rs[i].node := (LoadOf(nodeLoad, rs[i].node) + size) % SPACE];
      totalSpace := (totalSpace + size) % SPACE;
    }
    assert rs[..|rs|] == rs;
  }

  /** A floating-point number without its rounding. */
  datatype Float = Finite(value: real) | Infinity | NotANumber

  /** Division of non-negative numbers; by zero it is no error. */
  function Divide(a: nat, b: nat): Float {
    if b == 0 then (if a == 0 then NotANumber else Infinity) else Finite(a as real / b as real)
  }

  function TimesHundred(x: Float): Float { if x.Finite? then Finite(x.value * 100.0) else x }

  function Percentage(load: uint64, total: uint64): Float { TimesHundred(Divide(load, total)) }

  /** The share of each node in percent: it is never a finite number, because the total is zero. */
  method LoadDistribution(v: seq<VNode>) returns (distribution: map<Node, Float>)
    ensures forall n: Node :: n in distribution <==> exists i :: 0 <= i < |v| && v[i].node == n
    ensures forall n :: n in distribution ==> distribution[n] == if NodeLoad(Ranges(v), n) == 0 then NotANumber else Infinity
  {
    var ranges := GetTokenRanges(v);
    if |ranges| == 0 {
      return map[];
    }
    var nodeLoad, totalSpace := SumLoads(ranges);
    TotalSpaceIsZero(v);
    assert forall i :: 0 <= i < |v| ==> ranges[i].node == v[i].node;
    distribution := Percentages(nodeLoad, totalSpace);
  }

  method Percentages(nodeLoad: map<Node, uint64>, totalSpace: uint64) returns (distribution: map<Node, Float>)
    ensures distribution.Keys == nodeLoad.Keys
    ensures forall n :: n in nodeLoad ==> distribution[n] == Percentage(nodeLoad[n], totalSpace)
  {
    distribution := map[];
    var rest := nodeLoad.Keys;
    while rest != {}
      invariant rest <= nodeLoad.Keys && distribution.Keys == nodeLoad.Keys - rest
      invariant forall n :: n in distribution ==> distribution[n] == Percentage(nodeLoad[n], totalSpace)
    {
      var n :| n in rest;
      distribution, rest := distribution[n := Percentage(nodeLoad[n], totalSpace)], rest - {n};
    }
  }

  /** Of a positive total the percentages would be finite: 100 for the whole, and adding up. */
  lemma PercentagesAddUp(a: uint64, b: uint64, total: uint64)
    requires 0 < total && a + b < SPACE
    ensures Percentage(total, total) == Finite(100.0)
    ensures Percentage(a, total).Finite? && Percentage(b, total).Finite? && Percentage(a + b, total).Finite?
    ensures Percentage(a + b, total).value == Percentage(a, total).value + Percentage(b, total).value
  {
    SharesAddUp(a as real, b as real, total as real);
    assert (a + b) as real == a as real + b as real;
  }

  lemma SharesAddUp(x: real, y: real, t: real)
    requires t > 0.0
    ensures (x + y) / t * 100.0 == x / t * 100.0 + y / t * 100.0 && t / t * 100.0 == 100.0
  {
    assert (x + y) / t == x / t + y / t;
    assert t / t == 1.0;
  }

  /** On a collision-free ring a percentage is infinite, or no number for a node that owns the whole space. */
  lemma PercentagesAreMeaningless(v: seq<VNode>, n: Node)
    requires StrictlySorted(v) && v != []
    ensures Percentage(NodeLoad(Ranges(v), n), TotalSpace(Ranges(v))) ==
            if (exists i :: 0 <= i < |v| && v[i].node != n) && HashesOwned(v, n) != {} then Infinity else NotANumber
  {
    TotalSpaceIsZero(v);
    LoadIsExactShare(v, n);
  }

  // --------------------------------------------------------------- neighbours

  datatype NeighboursResult = Neighbours(nodes: seq<Node>) | NotOnRing | NegativeCount

  predicate IsFirstOf(v: seq<VNode>, node: Node, at: nat) {
    at < |v| && v[at].node == node && forall i :: 0 <= i < at ==> v[i].node != node
  }

  /** The position `i` places after `at`, and the one as far before it. */
  function After(at: nat, i: nat, n: nat): (p: nat)
    requires at < n && i <= n
    ensures p < n
  {
    if at + i < n then at + i else at + i - n
  }

  function Before(at: nat, i: nat, n: nat): (p: nat)
    requires at < n && i <= n
    ensures p < n
  {
    if i <= at then at - i else at - i + n
  }

  /** They are what the modular index arithmetic computes. */
  lemma IndexArithmetic(at: nat, i: nat, n: nat)
    requires at < n && i <= n
    ensures After(at, i, n) == (at + i) % n
    ensures Before(at, i, n) == (at - i + n) % n
  {
    ModOnce(at + i, n);
    ModOnce(at - i + n, n);
  }

  /** The nodes met after the virtual node at `at`, once around the ring. */
  function Forward(v: seq<VNode>, at: nat): (ns: seq<Node>)
    requires at < |v|
    ensures |ns| == |v|
  {
    seq(|v|, i requires 0 <= i < |v| => v[After(at, i + 1, |v|)].node)
  }

  /** The nodes met before the virtual node at `at`, once around the ring. */
  function Backward(v: seq<VNode>, at: nat): (ns: seq<Node>)
    requires at < |v|
    ensures |ns| == |v|
  {
    seq(|v|, i requires 0 <= i < |v| => v[Before(at, i + 1, |v|)].node)
  }

  /** The first `n` distinct nodes of a walk other than the node itself. */
  function Nearest(walk: seq<Node>, node: Node, n: nat): seq<Node> { Take(Firsts(Erase(walk, node)), n) }

  method FirstToken(v: seq<VNode>, node: Node) returns (found: bool, at: nat)
    ensures found ==> IsFirstOf(v, node, at)
    ensures !found ==> forall i :: 0 <= i < |v| ==> v[i].node != node
  {
    for i := 0 to |v|
      invariant forall k :: 0 <= k < i ==> v[k].node != node
    {
      if v[i].node == node {
        return true, i;
      }
    }
    return false, 0;
  }

  lemma NearestStep(walk: seq<Node>, node: Node, i: nat)
    requires i < |walk|
    ensures Firsts(Erase(walk[..i + 1], node)) ==
            if walk[i] in Members(walk[..i]) + {node} then Firsts(Erase(walk[..i], node)) else Firsts(Erase(walk[..i], node)) + [walk[i]]
    ensures Members(walk[..i + 1]) == Members(walk[..i]) + {walk[i]}
  {
    FirstsErased(walk[..i], node);
    FirstsErased(walk[..i + 1], node);
    FirstsStep(walk, i);
    if walk[i] !in Members(walk[..i]) {
      var more := Firsts(walk[..i]) + [walk[i]];
      assert more[..|more| - 1] == Firsts(walk[..i]);
    }
  }

  lemma {:induction false} ErasePrefix(ns: seq<Node>, x: Node, i: nat)
    requires i <= |ns|
    ensures Firsts(Erase(ns[..i], x)) <= Firsts(Erase(ns, x))
    decreases |ns| - i
  {
    if i == |ns| {
      assert ns[..i] == ns;
    } else {
      NearestStep(ns, x, i);
      ErasePrefix(ns, x, i + 1);
    }
  }

  lemma ForwardAt(v: seq<VNode>, at: nat, i: nat)
    requires at < |v| && i < |v|
    ensures Forward(v, at)[i] == v[After(at, i + 1, |v|)].node
    ensures Backward(v, at)[i] == v[Before(at, i + 1, |v|)].node
  {
  }

  /** The loops' index expressions follow the walks. */
  lemma WalkIndex(v: seq<VNode>, at: nat, i: nat)
    requires at < |v| && 1 <= i <= |v|
    ensures v[(at + i) % |v|].node == Forward(v, at)[i - 1]
    ensures v[(at - i + |v|) % |v|].node == Backward(v, at)[i - 1]
  {
    IndexArithmetic(at, i, |v|);
    ForwardAt(v, at, i - 1);
  }

  ghost predicate Collected(walk: seq<Node>, node: Node, i: nat, nodes: seq<Node>, seen: set<Node>)
    requires i <= |walk|
  {
    nodes == Firsts(Erase(walk[..i], node)) && seen == Members(walk[..i]) + {node}
  }

  lemma CollectedStep(walk: seq<Node>, node: Node, i: nat, nodes: seq<Node>, seen: set<Node>)
    requires i < |walk| && Collected(walk, node, i, nodes, seen)
    ensures walk[i] !in seen ==> Collected(walk, node, i + 1, nodes + [walk[i]], seen + {walk[i]})
    ensures walk[i] in seen ==> Collected(walk, node, i + 1, nodes, seen)
  {
    NearestStep(walk, node, i);
  }

  lemma CollectedAll(walk: seq<Node>, node: Node, i: nat, n: nat, nodes: seq<Node>, seen: set<Node>)
    requires i <= |walk| && Collected(walk, node, i, nodes, seen)
    requires |nodes| <= n && (i == |walk| || |nodes| == n)
    ensures nodes == Nearest(walk, node, n)
  {
    ErasePrefix(walk, node, i);
    assert walk[..|walk|] == walk;
  }

  /** A node met on the walk is taken when it was not seen before. */
  method TakeIfNew(met: Node, nodes: seq<Node>, seen: set<Node>, ghost walk: seq<Node>, ghost node: Node, ghost i: nat)
    returns (more: seq<Node>, nowSeen: set<Node>)
    requires i < |walk| && met == walk[i] && Collected(walk, node, i, nodes, seen)
    ensures Collected(walk, node, i + 1, more, nowSeen)
    ensures |more| <= |nodes| + 1
  {
    CollectedStep(walk, node, i, nodes, seen);
    if met !in seen {
      return nodes + [met], seen + {met};
    }
    return nodes, seen;
  }

  /** The node `i` places after the one at `at`. */
  method VisitAfter(v: seq<VNode>, at: nat, i: nat, nodes: seq<Node>, seen: set<Node>, ghost node: Node) returns (more: seq<Node>, nowSeen: set<Node>)
    requires at < |v| && 1 <= i <= |v| && Collected(Forward(v, at), node, i - 1, nodes, seen)
    ensures Collected(Forward(v, at), node, i, more, nowSeen)
    ensures |more| <= |nodes| + 1
  {
    WalkIndex(v, at, i);
    more, nowSeen := TakeIfNew(v[(at + i) % |v|].node, nodes, seen, Forward(v, at), node, i - 1);
  }

  /** The node `i` places before it. */
  method VisitBefore(v: seq<VNode>, at: nat, i: nat, nodes: seq<Node>, seen: set<Node>, ghost node: Node) returns (more: seq<Node>, nowSeen: set<Node>)
    requires at < |v| && 1 <= i <= |v| && Collected(Backward(v, at), node, i - 1, nodes, seen)
    ensures Collected(Backward(v, at), node, i, more, nowSeen)
    ensures |more| <= |nodes| + 1
  {
    WalkIndex(v, at, i);
    more, nowSeen := TakeIfNew(v[(at - i + |v|) % |v|].node, nodes, seen, Backward(v, at), node, i - 1);
  }

  lemma NothingCollected(walk: seq<Node>, node: Node)
    ensures Collected(walk, node, 0, [], {node})
  {
  }

  method CollectForward(v: seq<VNode>, at: nat, node: Node, n: nat) returns (nodes: seq<Node>)
    requires at < |v|
    ensures nodes == Nearest(Forward(v, at), node, n)
  {
    var seen: set<Node> := {node};
    nodes := [];
    var i := 1;
    NothingCollected(Forward(v, at), node);
    while i <= |v| && |nodes| < n
      invariant 1 <= i <= |v| + 1 && |nodes| <= n
      invariant Collected(Forward(v, at), node, i - 1, nodes, seen)
    {
      nodes, seen := VisitAfter(v, at, i, nodes, seen, node);
      i := i + 1;
    }
    CollectedAll(Forward(v, at), node, i - 1, n, nodes, seen);
  }

  method CollectBackward(v: seq<VNode>, at: nat, node: Node, n: nat) returns (nodes: seq<Node>)
    requires at < |v|
    ensures nodes == Nearest(Backward(v, at), node, n)
  {
    var seen: set<Node> := {node};
    nodes := [];
    var i := 1;
    NothingCollected(Backward(v, at), node);
    while i <= |v| && |nodes| < n
      invariant 1 <= i <= |v| + 1 && |nodes| <= n
      invariant Collected(Backward(v, at), node, i - 1, nodes, seen)
    {
      nodes, seen := VisitBefore(v, at, i, nodes, seen, node);
      i := i + 1;
    }
    CollectedAll(Backward(v, at), node, i - 1, n, nodes, seen);
  }

  method GetSuccessorNodes(v: seq<VNode>, node: Node, n: int) returns (r: NeighboursResult)
    ensures r.NotOnRing? <==> forall i :: 0 <= i < |v| ==> v[i].node != node
    ensures !r.NotOnRing? && n < 0 ==> r == NegativeCount
    ensures !r.NotOnRing? && n >= 0 ==>
              exists at | IsFirstOf(v, node, at) :: r == Neighbours(Nearest(Forward(v, at), node, n))
  {
    var found, at := FirstToken(v, node);
    if !found {
      return NotOnRing;
    }
    if n < 0 {
      return NegativeCount;
    }
    var nodes := CollectForward(v, at, node, n);
    return Neighbours(nodes);
  }

  method GetPredecessorNodes(v: seq<VNode>, node: Node, n: int) returns (r: NeighboursResult)
    ensures r.NotOnRing? <==> forall i :: 0 <= i < |v| ==> v[i].node != node
    ensures !r.NotOnRing? && n < 0 ==> r == NegativeCount
    ensures !r.NotOnRing? && n >= 0 ==>
              exists at | IsFirstOf(v, node, at) :: r == Neighbours(Nearest(Backward(v, at), node, n))
  {
    var found, at := FirstToken(v, node);
    if !found {
      return NotOnRing;
    }
    if n < 0 {
      return NegativeCount;
    }
    var nodes := CollectBackward(v, at, node, n);
    return Neighbours(nodes);
  }

  /** The forward walk is the clockwise walk from just after the virtual node, and the backward walk the same reversed. */
  lemma WalksOpposite(v: seq<VNode>, at: nat)
    requires at < |v|
    ensures StrictlySorted(v) ==> Forward(v, at) == Owners(Clockwise(v, (v[at].hash + 1) % SPACE))
    ensures forall i :: 0 <= i < |v| - 1 ==> Backward(v, at)[i] == Forward(v, at)[|v| - 2 - i]
    ensures Backward(v, at)[|v| - 1] == v[at].node == Forward(v, at)[|v| - 1]
  {
    if StrictlySorted(v) { ClockwiseAfter(v, at); }
    forall i: nat | i < |v| - 1
      ensures Backward(v, at)[i] == Forward(v, at)[|v| - 2 - i]
    {
      OppositeAt(v, at, i);
    }
    ForwardAt(v, at, |v| - 1);
  }

  lemma OppositeAt(v: seq<VNode>, at: nat, i: nat)
    requires at < |v| && i < |v| - 1
    ensures Backward(v, at)[i] == Forward(v, at)[|v| - 2 - i]
  {
    ForwardAt(v, at, i);
    ForwardAt(v, at, |v| - 2 - i);
  }

  lemma ClockwiseAfter(v: seq<VNode>, at: nat)
    requires StrictlySorted(v) && at < |v|
    ensures Forward(v, at) == Owners(Clockwise(v, (v[at].hash + 1) % SPACE))
  {
    NextHash(v[at].hash);
    if v[at].hash + 1 == SPACE { WrapsAfter(v, at); } else { ContinuesAfter(v, at, v[at].hash + 1); }
    ForwardFrom(v, at, (v[at].hash + 1) % SPACE);
  }

  lemma NextHash(h: uint64)
    ensures (h + 1) % SPACE == if h + 1 == SPACE then 0 else h + 1
  {
  }

  lemma WrapsAfter(v: seq<VNode>, at: nat)
    requires StrictlySorted(v) && at < |v| && v[at].hash + 1 == SPACE
    ensures at + 1 == |v| && FirstAtLeast(v, 0) == 0
  {
    assert at + 1 < |v| ==> v[at].hash < v[at + 1].hash;
  }

  lemma ContinuesAfter(v: seq<VNode>, at: nat, h: uint64)
    requires StrictlySorted(v) && at < |v| && h == v[at].hash + 1
    ensures FirstAtLeast(v, h) == at + 1
  {
    assert forall i :: at < i < |v| ==> v[at].hash < v[i].hash;
    assert forall i :: 0 <= i < at ==> v[i].hash < v[at].hash;
  }

  lemma ForwardFrom(v: seq<VNode>, at: nat, h: uint64)
    requires at < |v| && (FirstAtLeast(v, h) == at + 1 || (at + 1 == |v| && FirstAtLeast(v, h) == 0))
    ensures Forward(v, at) == Owners(Clockwise(v, h))
  {
    forall i: nat | i < |v|
      ensures Forward(v, at)[i] == Clockwise(v, h)[i].node
    {
      ForwardAt(v, at, i);
      RotatedAt(v, FirstAtLeast(v, h), i);
    }
  }

  lemma RotatedAt(v: seq<VNode>, p: nat, i: nat)
    requires p <= |v| && i < |v|
    ensures (v[p..] + v[..p])[i] == v[if p + i < |v| then p + i else p + i - |v|]
  {
  }

  /** So a node's successors are the preference list from just after its first virtual node, without it. */
  lemma SuccessorsAreReplicas(v: seq<VNode>, node: Node, at: nat, n: nat)
    requires StrictlySorted(v) && IsFirstOf(v, node, at)
    ensures Nearest(Forward(v, at), node, n) == Take(Erase(Preference(v, (v[at].hash + 1) % SPACE, n + 1), node), n)
  {
    WalksOpposite(v, at);
    FirstsErased(Forward(v, at), node);
    FirstsShape(Forward(v, at));
    EraseTake(Firsts(Forward(v, at)), node, n);
  }

  /** The list is headed by the first other node that the walk meets, and is a prefix of every longer list. */
  lemma NeighbourOrder(walk: seq<Node>, node: Node, n: nat, m: nat, j: nat)
    requires n <= m
    ensures Nearest(walk, node, n) <= Nearest(walk, node, m)
    ensures 0 < n && j < |walk| && walk[j] != node && (forall i :: 0 <= i < j ==> walk[i] == node) ==>
              Nearest(walk, node, n) != [] && Nearest(walk, node, n)[0] == walk[j]
  {
    FirstsShape(Erase(walk, node));
    if j < |walk| && walk[j] != node && forall i :: 0 <= i < j ==> walk[i] == node { ErasedHead(walk, node, j); }
  }

  lemma {:induction false} ErasedHead(walk: seq<Node>, node: Node, j: nat)
    requires j < |walk| && walk[j] != node && forall i :: 0 <= i < j ==> walk[i] == node
    ensures Erase(walk, node) != [] && Erase(walk, node)[0] == walk[j]
  {
    var init := walk[..|walk| - 1];
    if j < |init| {
      ErasedHead(init, node, j);
    } else {
      ErasedAll(init, node);
    }
  }

  lemma {:induction false} ErasedAll(walk: seq<Node>, node: Node)
    requires forall i :: 0 <= i < |walk| ==> walk[i] == node
    ensures Erase(walk, node) == []
  {
    if walk == [] {
    } else {
      ErasedAll(walk[..|walk| - 1], node);
    }
  }

  lemma OwnersAt(v: seq<VNode>, p: nat)
    requires p < |v|
    ensures v[p].node in Members(Owners(v))
  {
    assert Owners(v)[p] == v[p].node;
  }

  lemma WalkMeets(v: seq<VNode>, at: nat, p: nat)
    requires at < |v| && p < |v|
    ensures v[p].node in Members(Forward(v, at)) && v[p].node in Members(Backward(v, at))
  {
    var f := if at < p then p - at - 1 else p + |v| - at - 1;
    var b := if p < at then at - 1 - p else at - 1 - p + |v|;
    ForwardAt(v, at, f);
    ForwardAt(v, at, b);
    assert Forward(v, at)[f] in Forward(v, at) && Backward(v, at)[b] in Backward(v, at);
  }

  lemma OwnersMembers(v: seq<VNode>, n: Node) returns (p: nat)
    requires n in Members(Owners(v))
    ensures p < |v| && v[p].node == n
  {
    p :| p < |v| && Owners(v)[p] == n;
  }

  /** Either walk meets exactly the owners. */
  lemma WalkMembers(v: seq<VNode>, at: nat)
    requires at < |v|
    ensures Members(Forward(v, at)) == Members(Owners(v)) == Members(Backward(v, at))
  {
    forall n | n in Members(Owners(v))
      ensures n in Members(Forward(v, at)) && n in Members(Backward(v, at))
    {
      var p := OwnersMembers(v, n);
      WalkMeets(v, at, p);
    }
    forall i: nat | i < |v|
      ensures Forward(v, at)[i] in Members(Owners(v)) && Backward(v, at)[i] in Members(Owners(v))
    {
      ForwardAt(v, at, i);
      OwnersAt(v, After(at, i + 1, |v|));
      OwnersAt(v, Before(at, i + 1, |v|));
    }
  }

  lemma ErasedMembers(walk: seq<Node>, node: Node)
    ensures Members(Erase(walk, node)) == Members(walk) - {node}
  {
    forall x
      ensures x in Members(Erase(walk, node)) <==> x in Members(walk) && x != node
    {
      EraseElements(walk, node, x);
    }
  }

  /** Either list of neighbours: distinct other members, `n` of them or all there are. */
  lemma NeighbourShape(v: seq<VNode>, node: Node, at: nat, n: nat, walk: seq<Node>)
    requires IsFirstOf(v, node, at) && walk in {Forward(v, at), Backward(v, at)}
    ensures NoRepeats(Nearest(walk, node, n)) && node !in Nearest(walk, node, n)
    ensures Members(Nearest(walk, node, n)) <= Members(Owners(v))
    ensures |Nearest(walk, node, n)| == if n < |Members(Owners(v))| then n else |Members(Owners(v))| - 1
  {
    WalkMembers(v, at);
    var others := Erase(walk, node);
    FirstsShape(others);
    NoRepeatsMeans(Firsts(others));
    if n <= |Firsts(others)| { NoRepeatsPrefix(Firsts(others), n); }
    ErasedMembers(walk, node);
    assert Owners(v)[at] == node;
    forall x | x in Nearest(walk, node, n)
      ensures x in Members(others)
    {
      assert x in Members(Firsts(others));
    }
  }
}
