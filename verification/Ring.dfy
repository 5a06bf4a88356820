/**
 * The consistent-hash ring as a value: a list of virtual nodes sorted by hash, the clockwise
 * walk from a key, and what adding or removing a node does to every key's preference list.
 */
module Ring {
  import opened Codec
  import opened Sequences
  import opened Types
  import opened VirtualNodes

  ghost predicate Sorted(v: seq<VNode>) { forall i, j :: 0 <= i < j < |v| ==> v[i].hash <= v[j].hash }

  ghost predicate StrictlySorted(v: seq<VNode>) { forall i, j :: 0 <= i < j < |v| ==> v[i].hash < v[j].hash }

  // ------------------------------------------------------------------ lookup

  /** The first position whose hash is at least `h`, or the length. */
  function FirstAtLeast(v: seq<VNode>, h: uint64): (i: nat)
    ensures i <= |v|
    ensures forall j :: 0 <= j < i ==> v[j].hash < h
    ensures i < |v| ==> h <= v[i].hash
  {
    if v == [] || h <= v[0].hash then 0 else 1 + FirstAtLeast(v[1..], h)
  }

  /** All virtual nodes in clockwise order from `h`, wrapping past the end. */
  function Clockwise(v: seq<VNode>, h: uint64): seq<VNode> {
    var i := FirstAtLeast(v, h);
    v[i..] + v[..i]
  }

  function Owners(v: seq<VNode>): (ns: seq<Node>)
    ensures |ns| == |v|
    ensures forall i :: 0 <= i < |v| ==> ns[i] == v[i].node
  {
    if v == [] then [] else Owners(v[..|v| - 1]) + [v[|v| - 1].node]
  }

  /** The distinct elements in order of first occurrence. */
  function Firsts(ns: seq<Node>): seq<Node> {
    if ns == [] then []
    else
      var init, n := ns[..|ns| - 1], ns[|ns| - 1];
      if n in init then Firsts(init) else Firsts(init) + [n]
  }

  function Take(ns: seq<Node>, n: nat): seq<Node> { if n <= |ns| then ns[..n] else ns }

  /** The preference list: the first `n` distinct owners met on the clockwise walk. */
  function Preference(v: seq<VNode>, h: uint64, n: nat): seq<Node> {
    Take(Firsts(Owners(Clockwise(v, h))), n)
  }

  /** The owner of a hash. */
  function Owner(v: seq<VNode>, h: uint64): Node
    requires v != []
  {
    Clockwise(v, h)[0].node
  }

  // ------------------------------------------------- the preference list's shape

  lemma {:induction false} FirstsShape(ns: seq<Node>)
    ensures Members(Firsts(ns)) == Members(ns)
    ensures NoRepeats(Firsts(ns))
    ensures ns != [] ==> Firsts(ns) != [] && Firsts(ns)[0] == ns[0]
  {
    if ns == [] {
    } else {
      var init, n := ns[..|ns| - 1], ns[|ns| - 1];
      FirstsShape(init);
      assert Members(ns) == Members(init) + {n};
      if n !in init {
        assert Firsts(ns)[..|Firsts(ns)| - 1] == Firsts(init);
        assert n !in Members(Firsts(init));
        assert Members(Firsts(ns)) == Members(Firsts(init)) + {n};
      }
    }
  }

  lemma {:induction false} FirstsPrefix(ns: seq<Node>, i: nat)
    requires i <= |ns|
    ensures Firsts(ns[..i]) <= Firsts(ns)
  {
    if i == |ns| {
      assert ns[..i] == ns;
    } else {
      var init := ns[..|ns| - 1];
      FirstsPrefix(init, i);
      assert init[..i] == ns[..i];
    }
  }

  lemma OwnersConcat(v: seq<VNode>, w: seq<VNode>)
    ensures Owners(v + w) == Owners(v) + Owners(w)
  {
  }

  lemma ClockwiseMembers(v: seq<VNode>, h: uint64)
    ensures Members(Owners(Clockwise(v, h))) == Members(Owners(v))
    ensures |Clockwise(v, h)| == |v|
  {
    var i := FirstAtLeast(v, h);
    OwnersConcat(v[i..], v[..i]);
    OwnersConcat(v[..i], v[i..]);
    assert v[..i] + v[i..] == v;
  }

  lemma TakeShape(ns: seq<Node>, n: nat)
    requires NoRepeats(ns)
    ensures NoRepeats(Take(ns, n)) && Members(Take(ns, n)) <= Members(ns)
    ensures |Take(ns, n)| == if n <= |Members(ns)| then n else |Members(ns)|
  {
    NoRepeatsMeans(ns);
    if n <= |ns| { NoRepeatsPrefix(ns, n); }
  }

  /**
   * The specification of a preference list: distinct members, as many as asked for or all there
   * are, headed by the key's owner, and a prefix of every longer list.
   */
  lemma PreferenceShape(v: seq<VNode>, h: uint64, n: nat, m: nat)
    requires n <= m
    ensures NoRepeats(Preference(v, h, n))
    ensures Members(Preference(v, h, n)) <= Members(Owners(v))
    ensures |Preference(v, h, n)| == if n <= |Members(Owners(v))| then n else |Members(Owners(v))|
    ensures v != [] && n > 0 ==> Preference(v, h, n) != [] && Preference(v, h, n)[0] == Owner(v, h)
    ensures Preference(v, h, n) <= Preference(v, h, m)
  {
    var walk := Owners(Clockwise(v, h));
    ClockwiseMembers(v, h);
    FirstsShape(walk);
    TakeShape(Firsts(walk), n);
  }

  // ----------------------------------------------------------- losing a node

  function Without(v: seq<VNode>, x: Node): seq<VNode> {
    if v == [] then []
    else
      var init, u := v[..|v| - 1], v[|v| - 1];
      if u.node == x then Without(init, x) else Without(init, x) + [u]
  }

  function Erase(ns: seq<Node>, x: Node): seq<Node> {
    if ns == [] then []
    else
      var init, n := ns[..|ns| - 1], ns[|ns| - 1];
      if n == x then Erase(init, x) else Erase(init, x) + [n]
  }

  lemma {:induction false} WithoutConcat(a: seq<VNode>, b: seq<VNode>, x: Node)
    ensures Without(a + b, x) == Without(a, x) + Without(b, x)
  {
    if b == [] {
      assert a + b == a;
    } else {
      assert (a + b)[..|a + b| - 1] == a + b[..|b| - 1];
      WithoutConcat(a, b[..|b| - 1], x);
    }
  }

  lemma {:induction false} WithoutElements(v: seq<VNode>, x: Node, u: VNode)
    ensures multiset(Without(v, x))[u] == if u.node == x then 0 else multiset(v)[u]
    ensures u in Without(v, x) <==> u in v && u.node != x
  {
    if v == [] {
    } else {
      assert v == v[..|v| - 1] + [v[|v| - 1]];
      WithoutElements(v[..|v| - 1], x, u);
    }
  }

  lemma {:induction false} WithoutKeepsOrder(v: seq<VNode>, x: Node)
    requires Sorted(v)
    ensures Sorted(Without(v, x))
    ensures StrictlySorted(v) ==> StrictlySorted(Without(v, x))
  {
    if v == [] {
    } else {
      var init, u := v[..|v| - 1], v[|v| - 1];
      WithoutKeepsOrder(init, x);
      if u.node != x {
        WithoutBelow(init, x, u);
        SortedSnoc(Without(init, x), u);
      }
    }
  }

  lemma WithoutBelow(v: seq<VNode>, x: Node, u: VNode)
    ensures (forall w :: w in v ==> w.hash <= u.hash) ==> forall w :: w in Without(v, x) ==> w.hash <= u.hash
    ensures (forall w :: w in v ==> w.hash < u.hash) ==> forall w :: w in Without(v, x) ==> w.hash < u.hash
  {
    forall w | w in Without(v, x)
      ensures w in v
    {
      WithoutElements(v, x, w);
    }
  }

  lemma SortedSnoc(v: seq<VNode>, u: VNode)
    ensures Sorted(v) && (forall w :: w in v ==> w.hash <= u.hash) ==> Sorted(v + [u])
    ensures StrictlySorted(v) && (forall w :: w in v ==> w.hash < u.hash) ==> StrictlySorted(v + [u])
  {
  }

  lemma {:induction false} OwnersErased(v: seq<VNode>, x: Node)
    ensures Owners(Without(v, x)) == Erase(Owners(v), x)
  {
    if v == [] {
    } else {
      assert Owners(v)[..|v| - 1] == Owners(v[..|v| - 1]);
      OwnersErased(v[..|v| - 1], x);
      if v[|v| - 1].node != x {
        assert Without(v, x)[..|Without(v, x)| - 1] == Without(v[..|v| - 1], x);
      }
    }
  }

  lemma {:induction false} EraseElements(ns: seq<Node>, x: Node, n: Node)
    ensures n in Erase(ns, x) <==> n in ns && n != x
  {
    if ns == [] {
    } else {
      assert ns == ns[..|ns| - 1] + [ns[|ns| - 1]];
      EraseElements(ns[..|ns| - 1], x, n);
    }
  }

  lemma {:induction false} FirstsErased(ns: seq<Node>, x: Node)
    ensures Firsts(Erase(ns, x)) == Erase(Firsts(ns), x)
  {
    if ns == [] {
    } else {
      var init, n := ns[..|ns| - 1], ns[|ns| - 1];
      FirstsErased(init, x);
      EraseElements(init, x, n);
      if n != x {
        assert Erase(ns, x)[..|Erase(ns, x)| - 1] == Erase(init, x);
      }
      if n !in init {
        assert Firsts(ns)[..|Firsts(ns)| - 1] == Firsts(init);
      }
    }
  }

  lemma {:induction false} FirstAtLeastAt(v: seq<VNode>, h: uint64, i: nat)
    requires i <= |v|
    requires forall j :: 0 <= j < i ==> v[j].hash < h
    requires i < |v| ==> h <= v[i].hash
    ensures FirstAtLeast(v, h) == i
  {
  }

  /** The walk of the ring without a node is the walk without that node. */
  lemma ClockwiseWithout(v: seq<VNode>, h: uint64, x: Node)
    requires Sorted(v)
    ensures Clockwise(Without(v, x), h) == Without(Clockwise(v, h), x)
  {
    var i := FirstAtLeast(v, h);
    var low, high := Without(v[..i], x), Without(v[i..], x);
    assert v == v[..i] + v[i..];
    WithoutConcat(v[..i], v[i..], x);
    WithoutConcat(v[i..], v[..i], x);
    forall j | 0 <= j < |low|
      ensures low[j].hash < h
    {
      WithoutElements(v[..i], x, low[j]);
    }
    forall j | 0 <= j < |high|
      ensures h <= high[j].hash
    {
      WithoutElements(v[i..], x, high[j]);
    }
    FirstAtLeastAt(low + high, h, |low|);
  }

  /** Erasing one element of a list without repeats shortens it by at most one. */
  lemma {:induction false} EraseLength(ns: seq<Node>, x: Node)
    requires NoRepeats(ns)
    ensures |ns| - 1 <= |Erase(ns, x)| <= |ns|
    ensures x !in ns ==> |Erase(ns, x)| == |ns|
  {
    if ns == [] {
    } else {
      EraseLength(ns[..|ns| - 1], x);
    }
  }

  lemma {:induction false} EraseTake(ns: seq<Node>, x: Node, n: nat)
    requires NoRepeats(ns)
    ensures Take(Erase(ns, x), n) == Take(Erase(Take(ns, n + 1), x), n)
    ensures Erase(Take(ns, n), x) <= Take(Erase(ns, x), n)
  {
    EraseLength(ns, x);
    if n < |ns| {
      var init := ns[..|ns| - 1];
      EraseLength(init, x);
      assert Take(ns, n) == Take(init, n);
      if n + 1 < |ns| {
        EraseTake(init, x, n);
        assert Take(ns, n + 1) == Take(init, n + 1);
        assert Take(Erase(ns, x), n) == Take(Erase(init, x), n);
      } else {
        assert Take(ns, n) == init && Take(ns, n + 1) == ns;
        assert Erase(init, x) <= Erase(ns, x);
      }
    } else {
      assert Take(ns, n) == ns && Take(ns, n + 1) == ns;
      assert Take(Erase(ns, x), n) == Erase(ns, x);
    }
  }

  /**
   * Removing a node disturbs no list more than it must: every preference list is the old one,
   * taken one longer, with the node erased.
   */
  lemma RemovalDisruption(v: seq<VNode>, x: Node, h: uint64, n: nat)
    requires Sorted(v)
    ensures Preference(Without(v, x), h, n) == Take(Erase(Preference(v, h, n + 1), x), n)
  {
    var walk := Owners(Clockwise(v, h));
    ClockwiseWithout(v, h, x);
    OwnersErased(Clockwise(v, h), x);
    FirstsErased(walk, x);
    FirstsShape(walk);
    EraseTake(Firsts(walk), x, n);
  }

  // ---------------------------------------------------------- gaining a node

  /** The rings an unstable sort may leave after a node's tokens are appended. */
  ghost predicate IsAddition(v: seq<VNode>, tokens: seq<VNode>, v': seq<VNode>) {
    Sorted(v') && multiset(v') == multiset(v) + multiset(tokens)
  }

  /** Without ties there is only one way to sort. */
  lemma {:induction false} StrictOrderIsUnique(a: seq<VNode>, b: seq<VNode>)
    requires StrictlySorted(a) && Sorted(b) && multiset(a) == multiset(b)
    ensures a == b
  {
    assert |a| == |multiset(a)| == |multiset(b)| == |b|;
    if a == [] {
    } else {
      SameLast(a, b);
      InitSorted(a, b);
      StrictOrderIsUnique(a[..|a| - 1], b[..|b| - 1]);
      SameInitAndLast(a, b);
    }
  }

  lemma InitSorted(a: seq<VNode>, b: seq<VNode>)
    requires StrictlySorted(a) && Sorted(b) && a != [] && b != []
    ensures StrictlySorted(a[..|a| - 1]) && Sorted(b[..|b| - 1])
  {
  }

  lemma SameInitAndLast(a: seq<VNode>, b: seq<VNode>)
    requires |a| == |b| > 0 && a[..|a| - 1] == b[..|b| - 1] && a[|a| - 1] == b[|b| - 1]
    ensures a == b
  {
    assert a == a[..|a| - 1] + [a[|a| - 1]];
  }

  lemma SameLast(a: seq<VNode>, b: seq<VNode>)
    requires StrictlySorted(a) && Sorted(b) && multiset(a) == multiset(b)
    requires |a| == |b| > 0
    ensures a[|a| - 1] == b[|b| - 1]
    ensures multiset(a[..|a| - 1]) == multiset(b[..|b| - 1])
  {
    var x, y := a[|a| - 1], b[|b| - 1];
    InMultiset(b, x);
    InMultiset(a, y);
    assert x == y;
    DropLast(a);
    DropLast(b);
  }

  lemma InMultiset(s: seq<VNode>, u: VNode)
    ensures u in multiset(s) <==> exists i :: 0 <= i < |s| && s[i] == u
  {
  }

  lemma DropLast(s: seq<VNode>)
    requires s != []
    ensures multiset(s[..|s| - 1]) == multiset(s) - multiset{s[|s| - 1]}
  {
    assert s == s[..|s| - 1] + [s[|s| - 1]];
  }

  lemma AdditionUndone(v: seq<VNode>, tokens: seq<VNode>, v': seq<VNode>, x: Node)
    requires StrictlySorted(v') && Sorted(v) && IsAddition(v, tokens, v')
    requires (forall u :: u in v ==> u.node != x) && (forall u :: u in tokens ==> u.node == x)
    ensures Without(v', x) == v
  {
    WithoutKeepsOrder(v', x);
    forall u: VNode
      ensures multiset(Without(v', x))[u] == multiset(v)[u]
    {
      WithoutElements(v', x, u);
    }
    StrictOrderIsUnique(Without(v', x), v);
  }

  /**
   * Adding a node to a collision-free ring: every new preference list with the newcomer erased is
   * a prefix of the old one, and a key's owner changes only to the newcomer.
   */
  lemma AdditionDisruption(v: seq<VNode>, tokens: seq<VNode>, v': seq<VNode>, x: Node, h: uint64, n: nat)
    requires StrictlySorted(v') && Sorted(v) && IsAddition(v, tokens, v')
    requires (forall u :: u in v ==> u.node != x) && (forall u :: u in tokens ==> u.node == x)
    ensures Erase(Preference(v', h, n), x) <= Preference(v, h, n)
    ensures v != [] ==> v' != [] && Owner(v', h) in {Owner(v, h), x}
  {
    AdditionUndone(v, tokens, v', x);
    var walk := Owners(Clockwise(v', h));
    ClockwiseWithout(v', h, x);
    OwnersErased(Clockwise(v', h), x);
    FirstsErased(walk, x);
    FirstsShape(walk);
    EraseTake(Firsts(walk), x, n);
    if v != [] {
      assert |v'| == |multiset(v')| > 0;
      OwnerAfterErase(v', h, x);
    }
  }

  lemma {:induction false} WithoutHead(w: seq<VNode>, x: Node)
    requires w != [] && w[0].node != x
    ensures Without(w, x) != [] && Without(w, x)[0] == w[0]
  {
    if |w| > 1 { WithoutHead(w[..|w| - 1], x); }
  }

  lemma OwnerAfterErase(v: seq<VNode>, h: uint64, x: Node)
    requires Sorted(v) && v != [] && Without(v, x) != []
    ensures Owner(v, h) in {Owner(Without(v, x), h), x}
  {
    ClockwiseWithout(v, h, x);
    if Clockwise(v, h)[0].node != x {
      WithoutHead(Clockwise(v, h), x);
    }
  }
}
