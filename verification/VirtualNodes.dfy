/** Virtual nodes: the texts that are hashed to place a node on the ring, and that no two of them are the same. */
module VirtualNodes {
  import opened Codec
  import opened Types

  /** Any function of the hashed text. */
  type HashFn = string -> uint64

  datatype VNode = VNode(hash: uint64, node: Node, index: nat)

  function Decimal(n: nat): string {
    var digit := ['0' + (n % 10) as char];
    if n < 10 then digit else Decimal(n / 10) + digit
  }

  /** The text that is hashed for a virtual node. */
  function TokenText(node: Node, i: nat): string { node + "#vnode" + Decimal(i) }

  function Token(hash: HashFn, node: Node, i: nat): VNode {
    VNode(hash(TokenText(node, i)), node, i)
  }

  function Tokens(hash: HashFn, node: Node, count: nat): (ts: seq<VNode>)
    ensures |ts| == count
    ensures forall i :: 0 <= i < count ==> ts[i] == Token(hash, node, i)
  {
    if count == 0 then [] else Tokens(hash, node, count - 1) + [Token(hash, node, count - 1)]
  }

  predicate IsDigit(c: char) { '0' <= c <= '9' }

  predicate AllDigits(s: string) { forall i :: 0 <= i < |s| ==> IsDigit(s[i]) }

  /** The number that decimal digits stand for. */
  function Number(s: string): nat
    requires AllDigits(s)
  {
    if s == [] then 0 else 10 * Number(s[..|s| - 1]) + (s[|s| - 1] as int - '0' as int)
  }

  /** Decimal notation reads back, with no zero in front but for zero itself. */
  lemma {:induction false} DecimalReadsBack(n: nat)
    ensures AllDigits(Decimal(n)) && Number(Decimal(n)) == n
    ensures Decimal(n) != [] && (Decimal(n)[0] == '0' ==> n == 0 && |Decimal(n)| == 1)
  {
    var digit := ['0' + (n % 10) as char];
    if n < 10 {
      assert digit[..0] == [];
    } else {
      DecimalReadsBack(n / 10);
      assert (Decimal(n / 10) + digit)[..|Decimal(n / 10)|] == Decimal(n / 10);
    }
  }

  lemma TextEnds(node: Node, i: nat)
    ensures var t, d := TokenText(node, i), |Decimal(i)|;
            && |t| == |node| + 6 + d && t[|t| - d..] == Decimal(i) && t[|t| - d - 1] == 'e' && t[..|node|] == node
  {
  }

  lemma DigitBefore(t: string, d: nat, e: nat)
    requires d < e < |t| && AllDigits(t[|t| - e..])
    ensures IsDigit(t[|t| - d - 1])
  {
    assert t[|t| - e..][e - d - 1] == t[|t| - d - 1];
  }

  lemma SameEnd(t: string, d: nat, e: nat)
    requires d < |t| && e < |t| && t[|t| - d - 1] == 'e' && t[|t| - e - 1] == 'e'
    requires AllDigits(t[|t| - d..]) && AllDigits(t[|t| - e..])
    ensures d == e
  {
    if d < e { DigitBefore(t, d, e); }
    if e < d { DigitBefore(t, e, d); }
  }

  /** No two virtual nodes have the same text, whatever the names of their nodes. */
  lemma TextsDiffer(n: Node, i: nat, m: Node, j: nat)
    ensures TokenText(n, i) == TokenText(m, j) <==> n == m && i == j
  {
    TextEnds(n, i);
    TextEnds(m, j);
    DecimalReadsBack(i);
    DecimalReadsBack(j);
    if TokenText(n, i) == TokenText(m, j) {
      SameEnd(TokenText(n, i), |Decimal(i)|, |Decimal(j)|);
    }
  }

  /** So for any two virtual nodes some hash function tells them apart. */
  lemma TokensCanDiffer(n: Node, i: nat, m: Node, j: nat) returns (hash: HashFn)
    requires n != m || i != j
    ensures Token(hash, n, i).hash != Token(hash, m, j).hash
  {
    TextsDiffer(n, i, m, j);
    hash := s => if s == TokenText(n, i) then 1 else 0;
  }

  lemma TwelfthToken(hash: HashFn)
    ensures Token(hash, "a", 12) == VNode(hash("a#vnode12"), "a", 12)
  {
    assert Decimal(1) == "1" && Decimal(12) == "12";
    assert TokenText("a", 12) == "a#vnode12";
  }
}
