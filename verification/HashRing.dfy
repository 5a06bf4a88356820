/** The hash ring object, its reachable states, and what any history of membership changes leaves. */
module HashRing {
  import opened Codec
  import opened Ring
  import opened Sequences
  import opened Types
  import opened VirtualNodes

  /** The sorted virtual nodes and each member's hashes. */
  datatype RingState = RingState(vnodes: seq<VNode>, members: map<Node, seq<uint64>>)

  const EMPTY_RING := RingState([], map[])

  datatype RingOp = Add(node: Node) | Remove(node: Node)

  function Hashes(vs: seq<VNode>): (hs: seq<uint64>)
    ensures |hs| == |vs|
    ensures forall i :: 0 <= i < |vs| ==> hs[i] == vs[i].hash
  {
    if vs == [] then [] else Hashes(vs[..|vs| - 1]) + [vs[|vs| - 1].hash]
  }

  /** One membership change; the sort that follows an addition may order equal hashes either way. */
  ghost predicate RingStep(hash: HashFn, count: nat, s: RingState, op: RingOp, s': RingState) {
    match op
    case Add(x) =>
      if x in s.members then s' == s
      else
        && IsAddition(s.vnodes, Tokens(hash, x, count), s'.vnodes)
        && s'.members == s.members[x := Hashes(Tokens(hash, x, count))]
    case Remove(x) =>
      if x !in s.members then s' == s
      else s' == RingState(Without(s.vnodes, x), s.members - {x})
  }

  // --------------------------------------------------------------- invariant

  ghost predicate IsTokenOf(hash: HashFn, count: nat, nodes: set<Node>, u: VNode) {
    u.node in nodes && u.index < count && u == Token(hash, u.node, u.index)
  }

  /** Sorted, and holding exactly the members' tokens, each once. */
  ghost predicate Represents(hash: HashFn, count: nat, s: RingState) {
    && Sorted(s.vnodes)
    && (forall u: VNode :: multiset(s.vnodes)[u] == if IsTokenOf(hash, count, s.members.Keys, u) then 1 else 0)
    && (forall x :: x in s.members ==> s.members[x] == Hashes(Tokens(hash, x, count)))
  }

  /** Tokens that carry their own positions occur once each. */
  lemma {:induction false} NumberedOnce(ts: seq<VNode>, u: VNode)
    requires forall i :: 0 <= i < |ts| ==> ts[i].index == i
    ensures multiset(ts)[u] == if u.index < |ts| && u == ts[u.index] then 1 else 0
  {
    if ts == [] {
    } else {
      NumberedOnce(ts[..|ts| - 1], u);
      assert ts == ts[..|ts| - 1] + [ts[|ts| - 1]];
    }
  }

  lemma TokensMultiset(hash: HashFn, x: Node, count: nat, u: VNode)
    ensures multiset(Tokens(hash, x, count))[u] == if IsTokenOf(hash, count, {x}, u) then 1 else 0
  {
    NumberedOnce(Tokens(hash, x, count), u);
  }

  lemma AddKeepsRepresentation(hash: HashFn, count: nat, s: RingState, x: Node, s': RingState)
    requires Represents(hash, count, s) && x !in s.members && RingStep(hash, count, s, Add(x), s')
    ensures Represents(hash, count, s')
  {
    forall u: VNode
      ensures multiset(s'.vnodes)[u] == if IsTokenOf(hash, count, s'.members.Keys, u) then 1 else 0
    {
      TokensMultiset(hash, x, count, u);
    }
  }

  lemma RemoveKeepsRepresentation(hash: HashFn, count: nat, s: RingState, x: Node, s': RingState)
    requires Represents(hash, count, s) && x in s.members && RingStep(hash, count, s, Remove(x), s')
    ensures Represents(hash, count, s')
  {
    WithoutKeepsOrder(s.vnodes, x);
    forall u: VNode
      ensures multiset(s'.vnodes)[u] == if IsTokenOf(hash, count, s'.members.Keys, u) then 1 else 0
    {
      WithoutElements(s.vnodes, x, u);
    }
  }

  /** Every membership change keeps the representation. */
  lemma StepKeepsRepresentation(hash: HashFn, count: nat, s: RingState, op: RingOp, s': RingState)
    requires Represents(hash, count, s) && RingStep(hash, count, s, op, s')
    ensures Represents(hash, count, s')
    ensures s'.members.Keys == if op.Add? then s.members.Keys + {op.node} else s.members.Keys - {op.node}
  {
    match op
    case Add(x) =>
      if x !in s.members { AddKeepsRepresentation(hash, count, s, x, s'); }
    case Remove(x) =>
      if x in s.members { RemoveKeepsRepresentation(hash, count, s, x, s'); }
  }

  // ---------------------------------------------------------------- histories

  ghost predicate IsHistory(hash: HashFn, count: nat, ops: seq<RingOp>, states: seq<RingState>) {
    && |states| == |ops| + 1 && states[0] == EMPTY_RING
    && forall i :: 0 <= i < |ops| ==> RingStep(hash, count, states[i], ops[i], states[i + 1])
  }

  function MembersAfter(ops: seq<RingOp>): set<Node> {
    if ops == [] then {}
    else
      var before := MembersAfter(ops[..|ops| - 1]);
      match ops[|ops| - 1]
      case Add(x) => before + {x}
      case Remove(x) => before - {x}
  }

  lemma {:induction false} HistoryRepresents(hash: HashFn, count: nat, ops: seq<RingOp>, states: seq<RingState>)
    requires IsHistory(hash, count, ops, states)
    ensures Represents(hash, count, states[|ops|])
    ensures states[|ops|].members.Keys == MembersAfter(ops)
  {
    if ops == [] {
    } else {
      var n := |ops| - 1;
      HistoryRepresents(hash, count, ops[..n], states[..n + 1]);
      StepKeepsRepresentation(hash, count, states[n], ops[n], states[n + 1]);
    }
  }

  /** No two tokens of these nodes share a hash. */
  ghost predicate CollisionFree(hash: HashFn, count: nat, nodes: set<Node>) {
    forall u, w :: IsTokenOf(hash, count, nodes, u) && IsTokenOf(hash, count, nodes, w) && u.hash == w.hash ==> u == w
  }

  /** That is, the hash tells the texts of all their virtual nodes apart. */
  lemma CollisionFreeExactly(hash: HashFn, count: nat, nodes: set<Node>)
    ensures CollisionFree(hash, count, nodes) <==>
            forall n, i: nat, m, j: nat :: n in nodes && m in nodes && i < count && j < count && (n != m || i != j) ==>
              hash(TokenText(n, i)) != hash(TokenText(m, j))
  {
    if CollisionFree(hash, count, nodes) {
      forall n, i: nat, m, j: nat | n in nodes && m in nodes && i < count && j < count && (n != m || i != j)
        ensures hash(TokenText(n, i)) != hash(TokenText(m, j))
      {
        assert IsTokenOf(hash, count, nodes, Token(hash, n, i)) && IsTokenOf(hash, count, nodes, Token(hash, m, j));
      }
    }
  }

  // some hash function has no collisions

  function TextsOf(node: Node, count: nat): (texts: seq<string>)
    ensures |texts| == count && forall i :: 0 <= i < count ==> texts[i] == TokenText(node, i)
  {
    if count == 0 then [] else TextsOf(node, count - 1) + [TokenText(node, count - 1)]
  }

  /** The texts of all virtual nodes. */
  function AllTexts(members: seq<Node>, count: nat): seq<string> {
    if members == [] then [] else AllTexts(members[..|members| - 1], count) + TextsOf(members[|members| - 1], count)
  }

  lemma {:induction false} AllTextsSize(members: seq<Node>, count: nat)
    ensures |AllTexts(members, count)| == |members| * count
  {
    if members == [] {
    } else {
      AllTextsSize(members[..|members| - 1], count);
      assert |members| * count == (|members| - 1) * count + count;
    }
  }

  lemma {:induction false} InAllTexts(members: seq<Node>, count: nat, a: nat, i: nat)
    requires a < |members| && i < count
    ensures TokenText(members[a], i) in AllTexts(members, count)
  {
    if a == |members| - 1 {
      assert TextsOf(members[a], count)[i] == TokenText(members[a], i);
    } else {
      InAllTexts(members[..|members| - 1], count, a, i);
    }
  }

  /** Where a text is in the list, or the length of the list. */
  function Place(texts: seq<string>, t: string): (p: nat)
    ensures p <= |texts| && (t in texts ==> p < |texts| && texts[p] == t)
  {
    if texts == [] || texts[0] == t then 0 else 1 + Place(texts[1..], t)
  }

  function ByPlace(texts: seq<string>): HashFn { t => Place(texts, t) % SPACE }

  lemma ByPlaceDiffers(texts: seq<string>, t: string, u: string)
    requires |texts| <= SPACE && Place(texts, t) < |texts| && Place(texts, u) < |texts| && Place(texts, t) != Place(texts, u)
    ensures ByPlace(texts)(t) != ByPlace(texts)(u)
  {
  }

  lemma ByPlaceIsCollisionFree(count: nat, members: seq<Node>)
    requires |AllTexts(members, count)| <= SPACE
    ensures CollisionFree(ByPlace(AllTexts(members, count)), count, Members(members))
  {
    var texts := AllTexts(members, count);
    forall n, i: nat, m, j: nat | n in members && m in members && i < count && j < count && (n != m || i != j)
      ensures ByPlace(texts)(TokenText(n, i)) != ByPlace(texts)(TokenText(m, j))
    {
      PlacesDiffer(members, count, n, i, m, j);
      ByPlaceDiffers(texts, TokenText(n, i), TokenText(m, j));
    }
    CollisionFreeExactly(ByPlace(texts), count, Members(members));
  }

  /** As long as there are hashes enough, some function gives all virtual nodes different ones. */
  lemma SomeHashIsCollisionFree(count: nat, members: seq<Node>) returns (hash: HashFn)
    requires |members| * count <= SPACE
    ensures CollisionFree(hash, count, Members(members))
  {
    AllTextsSize(members, count);
    ByPlaceIsCollisionFree(count, members);
    hash := ByPlace(AllTexts(members, count));
  }

  lemma PlacesDiffer(members: seq<Node>, count: nat, n: Node, i: nat, m: Node, j: nat)
    requires n in members && m in members && i < count && j < count && (n != m || i != j)
    ensures var texts := AllTexts(members, count);
            Place(texts, TokenText(n, i)) < |texts| && Place(texts, TokenText(m, j)) < |texts| &&
            Place(texts, TokenText(n, i)) != Place(texts, TokenText(m, j))
  {
    var a :| 0 <= a < |members| && members[a] == n;
    var b :| 0 <= b < |members| && members[b] == m;
    InAllTexts(members, count, a, i);
    InAllTexts(members, count, b, j);
    TextsDiffer(n, i, m, j);
  }

  lemma {:induction false} AppearsTwice(v: seq<VNode>, i: nat, j: nat)
    requires i < j < |v| && v[i] == v[j]
    ensures multiset(v)[v[i]] >= 2
  {
    assert v == v[..j] + [v[j]] + v[j + 1..];
    assert v[i] in v[..j];
  }

  lemma CollisionFreeIsStrict(hash: HashFn, count: nat, s: RingState)
    requires Represents(hash, count, s)
    ensures CollisionFree(hash, count, s.members.Keys) ==> StrictlySorted(s.vnodes)
  {
    if CollisionFree(hash, count, s.members.Keys) {
      forall i, j | 0 <= i < j < |s.vnodes|
        ensures s.vnodes[i].hash < s.vnodes[j].hash
      {
        assert s.vnodes[i] in multiset(s.vnodes) && s.vnodes[j] in multiset(s.vnodes);
        if s.vnodes[i] == s.vnodes[j] { AppearsTwice(s.vnodes, i, j); }
      }
    }
  }

  /** Two represented rings with the same members are equal when no hashes collide. */
  lemma SameMembersSameRing(hash: HashFn, count: nat, s: RingState, t: RingState)
    requires Represents(hash, count, s) && Represents(hash, count, t)
    requires s.members.Keys == t.members.Keys && CollisionFree(hash, count, s.members.Keys)
    ensures s == t
  {
    CollisionFreeIsStrict(hash, count, s);
    SameMultiset(hash, count, s, t);
    StrictOrderIsUnique(s.vnodes, t.vnodes);
  }

  lemma SameMultiset(hash: HashFn, count: nat, s: RingState, t: RingState)
    requires Represents(hash, count, s) && Represents(hash, count, t)
    requires s.members.Keys == t.members.Keys
    ensures multiset(s.vnodes) == multiset(t.vnodes)
    ensures s.members == t.members
  {
    forall u: VNode
      ensures multiset(s.vnodes)[u] == multiset(t.vnodes)[u]
    {
    }
  }

  /** Only the final member set matters: any two histories that end in it leave the same ring and the same lists. */
  lemma HistoryIndependence(hash: HashFn, count: nat, ops: seq<RingOp>, states: seq<RingState>, ops': seq<RingOp>, states': seq<RingState>)
    requires IsHistory(hash, count, ops, states) && IsHistory(hash, count, ops', states')
    requires MembersAfter(ops) == MembersAfter(ops') && CollisionFree(hash, count, MembersAfter(ops))
    ensures states[|ops|] == states'[|ops'|]
    ensures forall h: uint64, n: nat :: Preference(states[|ops|].vnodes, h, n) == Preference(states'[|ops'|].vnodes, h, n)
  {
    HistoryRepresents(hash, count, ops, states);
    HistoryRepresents(hash, count, ops', states');
    SameMembersSameRing(hash, count, states[|ops|], states'[|ops'|]);
  }

  /** Adding a new node and removing it again is the identity. */
  lemma AddThenRemove(hash: HashFn, count: nat, s: RingState, x: Node, added: RingState, back: RingState)
    requires Represents(hash, count, s) && x !in s.members && CollisionFree(hash, count, s.members.Keys)
    requires RingStep(hash, count, s, Add(x), added) && RingStep(hash, count, added, Remove(x), back)
    ensures back == s
  {
    SameMembersAgain(hash, count, s, x, added, back);
    SameMembersSameRing(hash, count, back, s);
  }

  lemma SameMembersAgain(hash: HashFn, count: nat, s: RingState, x: Node, added: RingState, back: RingState)
    requires Represents(hash, count, s) && x !in s.members
    requires RingStep(hash, count, s, Add(x), added) && RingStep(hash, count, added, Remove(x), back)
    ensures Represents(hash, count, back) && back.members.Keys == s.members.Keys
  {
    StepKeepsRepresentation(hash, count, s, Add(x), added);
    StepKeepsRepresentation(hash, count, added, Remove(x), back);
  }

  lemma MemberMultiset(hash: HashFn, count: nat, s: RingState, x: Node)
    requires Represents(hash, count, s)
    ensures multiset(s.vnodes) == multiset(Without(s.vnodes, x)) + multiset(if x in s.members then Tokens(hash, x, count) else [])
  {
    var own := if x in s.members then Tokens(hash, x, count) else [];
    forall u: VNode
      ensures multiset(s.vnodes)[u] == multiset(Without(s.vnodes, x))[u] + multiset(own)[u]
    {
      MemberCount(hash, count, s, x, u);
    }
    SameCounts(multiset(s.vnodes), multiset(Without(s.vnodes, x)), multiset(own));
  }

  lemma SameCounts(all: multiset<VNode>, others: multiset<VNode>, mine: multiset<VNode>)
    requires forall u: VNode :: all[u] == others[u] + mine[u]
    ensures all == others + mine
  {
  }

  lemma MemberCount(hash: HashFn, count: nat, s: RingState, x: Node, u: VNode)
    requires Represents(hash, count, s)
    ensures multiset(s.vnodes)[u] == multiset(Without(s.vnodes, x))[u] + if x in s.members then multiset(Tokens(hash, x, count))[u] else 0
  {
    WithoutElements(s.vnodes, x, u);
    TokensMultiset(hash, x, count, u);
    assert multiset(s.vnodes)[u] == if IsTokenOf(hash, count, s.members.Keys, u) then 1 else 0;
  }

  /** A member owns exactly `count` virtual nodes, any other node none. */
  lemma MemberTokens(hash: HashFn, count: nat, s: RingState, x: Node)
    requires Represents(hash, count, s)
    ensures |s.vnodes| == |Without(s.vnodes, x)| + if x in s.members then count else 0
  {
    var own := if x in s.members then Tokens(hash, x, count) else [];
    MemberMultiset(hash, count, s, x);
    assert |multiset(s.vnodes)| == |s.vnodes|;
  }

  /** The owners on the ring are exactly the members. */
  lemma OwnersAreMembers(hash: HashFn, count: nat, s: RingState)
    requires count > 0 && Represents(hash, count, s)
    ensures Members(Owners(s.vnodes)) == s.members.Keys
  {
    forall n
      ensures n in Members(Owners(s.vnodes)) <==> n in s.members
    {
      if n in Owners(s.vnodes) {
        var i :| 0 <= i < |s.vnodes| && Owners(s.vnodes)[i] == n;
        InMultiset(s.vnodes, s.vnodes[i]);
      }
      if n in s.members {
        InMultiset(s.vnodes, Token(hash, n, 0));
        var i :| 0 <= i < |s.vnodes| && s.vnodes[i] == Token(hash, n, 0);
        assert Owners(s.vnodes)[i] == n;
      }
    }
  }

  /**
   * On every reachable ring a preference list is distinct members, `n` of them or all there are,
   * headed by the key's owner, and a prefix of every longer list.
   */
  lemma PreferenceList(hash: HashFn, count: nat, s: RingState, h: uint64, n: nat, m: nat)
    requires count > 0 && Represents(hash, count, s) && n <= m
    ensures NoRepeats(Preference(s.vnodes, h, n)) && Members(Preference(s.vnodes, h, n)) <= s.members.Keys
    ensures |Preference(s.vnodes, h, n)| == if n <= |s.members| then n else |s.members|
    ensures s.vnodes != [] && n > 0 ==> Preference(s.vnodes, h, n) != [] && Preference(s.vnodes, h, n)[0] == Owner(s.vnodes, h)
    ensures Preference(s.vnodes, h, n) <= Preference(s.vnodes, h, m)
  {
    OwnersAreMembers(hash, count, s);
    PreferenceShape(s.vnodes, h, n, m);
    assert |s.members| == |s.members.Keys|;
  }

  /** Removing a member, seen from any reachable ring. */
  lemma RemoveDisruption(hash: HashFn, count: nat, s: RingState, x: Node, s': RingState, h: uint64, n: nat)
    requires count > 0 && Represents(hash, count, s) && RingStep(hash, count, s, Remove(x), s')
    ensures Preference(s'.vnodes, h, n) == Take(Erase(Preference(s.vnodes, h, n + 1), x), n)
  {
    MemberTokens(hash, count, s, x);
    WithoutAbsent(s.vnodes, x);
    RemovalDisruption(s.vnodes, x, h, n);
  }

  lemma {:induction false} WithoutAbsent(v: seq<VNode>, x: Node)
    ensures |Without(v, x)| == |v| ==> Without(v, x) == v
    ensures |Without(v, x)| <= |v|
  {
    if v == [] {
    } else {
      WithoutAbsent(v[..|v| - 1], x);
    }
  }

  /** Adding a node, seen from any reachable ring whose tokens stay collision-free. */
  lemma AddDisruption(hash: HashFn, count: nat, s: RingState, x: Node, s': RingState, h: uint64, n: nat)
    requires Represents(hash, count, s) && RingStep(hash, count, s, Add(x), s')
    requires x !in s.members && CollisionFree(hash, count, s.members.Keys + {x})
    ensures Erase(Preference(s'.vnodes, h, n), x) <= Preference(s.vnodes, h, n)
    ensures s.vnodes != [] ==> s'.vnodes != [] && Owner(s'.vnodes, h) in {Owner(s.vnodes, h), x}
  {
    StepKeepsRepresentation(hash, count, s, Add(x), s');
    CollisionFreeIsStrict(hash, count, s');
    forall u | u in s.vnodes
      ensures u.node != x
    {
      assert u in multiset(s.vnodes);
    }
    AdditionDisruption(s.vnodes, Tokens(hash, x, count), s'.vnodes, x, h, n);
  }

  // --------------------------------------------------------------- the object

  datatype NodeResult = NodeFound(node: Node) | NoNodes

  /** A negative length makes the allocation panic. */
  datatype NodesResult = Nodes(nodes: seq<Node>) | EmptyRing | NegativeLength

  lemma InsertKeepsOrder(low: seq<VNode>, u: VNode, high: seq<VNode>)
    requires Sorted(low + high)
    requires forall i :: 0 <= i < |low| ==> low[i].hash <= u.hash
    requires forall i :: 0 <= i < |high| ==> u.hash <= high[i].hash
    ensures Sorted(low + [u] + high)
  {
    var all, rest := low + [u] + high, low + high;
    forall i, j | 0 <= i < j < |all|
      ensures all[i].hash <= all[j].hash
    {
      if i != |low| && j != |low| {
        var i', j' := if i < |low| then i else i - 1, if j < |low| then j else j - 1;
        assert all[i] == rest[i'] && all[j] == rest[j'];
      }
    }
  }

  function Insert(r: seq<VNode>, u: VNode): (r': seq<VNode>)
    requires Sorted(r)
    ensures Sorted(r') && multiset(r') == multiset(r) + multiset{u}
  {
    var at := FirstAtLeast(r, u.hash);
    assert r == r[..at] + r[at..];
    InsertKeepsOrder(r[..at], u, r[at..]);
    r[..at] + [u] + r[at..]
  }

  /** The library's sort: some sorted rearrangement. */
  method SortByHash(v: seq<VNode>) returns (r: seq<VNode>)
    ensures Sorted(r) && multiset(r) == multiset(v)
  {
    r := [];
    for i := 0 to |v|
      invariant Sorted(r) && multiset(r) == multiset(v[..i])
    {
      assert v[..i + 1] == v[..i] + [v[i]];
      r := Insert(r, v[i]);
    }
    assert v[..|v|] == v;
  }

  /** The library's binary search for the first hash at or past `h`. */
  method Search(v: seq<VNode>, h: uint64) returns (i: nat)
    requires Sorted(v)
    ensures i == FirstAtLeast(v, h)
  {
    i := 0;
    var j := |v|;
    while i < j
      invariant i <= j <= |v|
      invariant forall k :: 0 <= k < i ==> v[k].hash < h
      invariant forall k :: j <= k < |v| ==> h <= v[k].hash
    {
      var mid := (i + j) / 2;
      if h <= v[mid].hash {
        j := mid;
      } else {
        i := mid + 1;
      }
    }
    FirstAtLeastAt(v, h, i);
  }

  /** Appends a node's tokens, collecting their hashes. */
  method AppendTokens(hash: HashFn, vnodes: seq<VNode>, node: Node, count: nat) returns (extended: seq<VNode>, hashes: seq<uint64>)
    ensures extended == vnodes + Tokens(hash, node, count)
    ensures hashes == Hashes(Tokens(hash, node, count))
  {
    extended, hashes := vnodes, [];
    for i := 0 to count
      invariant extended == vnodes + Tokens(hash, node, i)
      invariant hashes == Hashes(Tokens(hash, node, i))
    {
      assert Tokens(hash, node, i + 1)[..i] == Tokens(hash, node, i);
      var token := Token(hash, node, i);
      extended := extended + [token];
      hashes := hashes + [token.hash];
    }
  }

  /** The loop that keeps the virtual nodes of all others. */
  method VNodesWithout(v: seq<VNode>, node: Node) returns (kept: seq<VNode>)
    ensures kept == Without(v, node)
  {
    kept := [];
    for i := 0 to |v|
      invariant kept == Without(v[..i], node)
    {
      assert v[..i + 1][..i] == v[..i];
      if v[i].node != node {
        kept := kept + [v[i]];
      }
    }
    assert v[..|v|] == v;
  }

  class HashRing {
    const hash: HashFn
    const virtualCount: nat
    var vnodes: seq<VNode>
    var nodeVNodes: map<Node, seq<uint64>>

    function State(): RingState
      reads this
    {
      RingState(vnodes, nodeVNodes)
    }

    ghost predicate Valid()
      reads this
    {
      virtualCount > 0 && Represents(hash, virtualCount, State())
    }

    constructor (hash: HashFn, virtualNodes: int)
      ensures Valid() && State() == EMPTY_RING
      ensures this.hash == hash && virtualCount == if virtualNodes < 1 then 150 else virtualNodes
    {
      this.hash := hash;
      virtualCount := if virtualNodes < 1 then 150 else virtualNodes;
      vnodes, nodeVNodes := [], map[];
    }

    method AddNode(node: Node)
      requires Valid()
      modifies this
      ensures Valid()
      ensures RingStep(hash, virtualCount, old(State()), Add(node), State())
    {
      ghost var before := State();
      if node in nodeVNodes {
        return;
      }
      var extended, hashes := AppendTokens(hash, vnodes, node, virtualCount);
      nodeVNodes := nodeVNodes[node := hashes];
      vnodes := SortByHash(extended);
      StepKeepsRepresentation(hash, virtualCount, before, Add(node), State());
    }

    method RemoveNode(node: Node)
      requires Valid()
      modifies this
      ensures Valid()
      ensures RingStep(hash, virtualCount, old(State()), Remove(node), State())
    {
      ghost var before := State();
      if node !in nodeVNodes {
        return;
      }
      var kept := VNodesWithout(vnodes, node);
      vnodes, nodeVNodes := kept, nodeVNodes - {node};
      StepKeepsRepresentation(hash, virtualCount, before, Remove(node), State());
    }

    method GetNode(key: string) returns (r: NodeResult)
      requires Valid()
      ensures r == if vnodes == [] then NoNodes else NodeFound(Owner(vnodes, hash(key)))
    {
      if |vnodes| == 0 {
        return NoNodes;
      }
      var i := Search(vnodes, hash(key));
      if i >= |vnodes| {
        i := 0;
      }
      return NodeFound(vnodes[i].node);
    }

    method GetNodes(key: string, n: int) returns (r: NodesResult)
      requires Valid()
      ensures vnodes == [] ==> r == EmptyRing
      ensures vnodes != [] && n < 0 ==> r == NegativeLength
      ensures vnodes != [] && n >= 0 ==> r == Nodes(Preference(vnodes, hash(key), n))
    {
      if |vnodes| == 0 {
        return EmptyRing;
      }
      var start := Search(vnodes, hash(key));
      if start >= |vnodes| {
        start := 0;
      }
      if n < 0 {
        return NegativeLength;
      }
      ClockwiseGoesRound(vnodes, hash(key), start);
      var nodes := CollectDistinct(vnodes, Owners(Clockwise(vnodes, hash(key))), start, n);
      return Nodes(nodes);
    }
  }

  /** The nodes met when the index runs round from `start`, modulo the length. */
  ghost predicate GoesRound(v: seq<VNode>, start: nat, walk: seq<Node>) {
    |walk| == |v| && forall i :: 0 <= i < |v| ==> walk[i] == v[(start + i) % |v|].node
  }

  /** The walk of `GetNodes`, with the set of nodes already seen. */
  method CollectDistinct(v: seq<VNode>, ghost walk: seq<Node>, start: nat, n: nat) returns (nodes: seq<Node>)
    requires GoesRound(v, start, walk)
    ensures nodes == Take(Firsts(walk), n)
  {
    nodes := [];
    var seen: set<Node> := {};
    var i := 0;
    while i < |v| && |nodes| < n
      invariant i <= |v| && |nodes| <= n
      invariant Visited(walk, i, nodes, seen)
    {
      VisitNext(walk, i, nodes, seen);
      var node := v[(start + i) % |v|].node;
      assert node in seen ==> seen + {node} == seen;
      if node !in seen {
        seen := seen + {node};
        nodes := nodes + [node];
      }
      i := i + 1;
    }
    VisitedEnough(walk, i, nodes, seen, n);
  }

  /** The first `i` nodes of the walk were visited. */
  ghost predicate Visited(walk: seq<Node>, i: nat, nodes: seq<Node>, seen: set<Node>)
    requires i <= |walk|
  {
    nodes == Firsts(walk[..i]) && seen == Members(walk[..i])
  }

  lemma VisitNext(walk: seq<Node>, i: nat, nodes: seq<Node>, seen: set<Node>)
    requires i < |walk| && Visited(walk, i, nodes, seen)
    ensures Visited(walk, i + 1, if walk[i] in seen then nodes else nodes + [walk[i]], seen + {walk[i]})
  {
    FirstsStep(walk, i);
  }

  lemma VisitedEnough(walk: seq<Node>, i: nat, nodes: seq<Node>, seen: set<Node>, n: nat)
    requires i <= |walk| && Visited(walk, i, nodes, seen) && |nodes| <= n && (i == |walk| || |nodes| == n)
    ensures nodes == Take(Firsts(walk), n)
  {
    FirstsPrefix(walk, i);
    assert walk[..|walk|] == walk;
  }

  lemma FirstsStep(ns: seq<Node>, i: nat)
    requires i < |ns|
    ensures Firsts(ns[..i + 1]) == if ns[i] in Members(ns[..i]) then Firsts(ns[..i]) else Firsts(ns[..i]) + [ns[i]]
    ensures Members(ns[..i + 1]) == Members(ns[..i]) + {ns[i]}
  {
    assert ns[..i + 1][..i] == ns[..i];
  }

  lemma ModOnce(a: nat, n: nat)
    requires a < n + n
    ensures n > 0 && a % n == if a < n then a else a - n
  {
    var q, r := a / n, a % n;
    assert a == n * q + r;
    assert q < 2;
  }

  /** From the first virtual node at or after the hash the index follows the clockwise walk. */
  lemma ClockwiseGoesRound(v: seq<VNode>, h: uint64, start: nat)
    requires v != [] && start == (if FirstAtLeast(v, h) == |v| then 0 else FirstAtLeast(v, h))
    ensures GoesRound(v, start, Owners(Clockwise(v, h)))
  {
    forall i | 0 <= i < |v|
      ensures Owners(Clockwise(v, h))[i] == v[(start + i) % |v|].node
    {
      WrapAround(v, h, start, i);
    }
  }

  /** Stepping the index modulo the length follows the clockwise walk. */
  lemma WrapAround(v: seq<VNode>, h: uint64, start: nat, i: nat)
    requires i < |v| && start == (if FirstAtLeast(v, h) == |v| then 0 else FirstAtLeast(v, h))
    ensures |Clockwise(v, h)| == |v| && Owners(Clockwise(v, h))[i] == v[(start + i) % |v|].node
  {
    ModOnce(start + i, |v|);
    assert Clockwise(v, h)[i] == if start + i < |v| then v[start + i] else v[start + i - |v|];
  }
}
