/** SHA-256 and HMAC as free constructors: equal digests come only from equal inputs.

Each constructor is one kind of preimage the verifier hashes; `Opaque` stands for any other 32-byte
string a server may send. */
module Hashes {
  import opened Wrappers

  type byte = b: nat | b < 256

  datatype Hash =
    | Opaque(id: nat)
    | TreeHash(left: NodeData, right: NodeData)
    | LogLeaf(prefixRoot: Hash, commitment: Hash)
    | PrefixLeaf(key: seq<byte>, counter: nat, pos: nat)
    | PrefixParent(zero: Hash, one: Hash)
    | Commitment(nonce: seq<byte>, searchKey: seq<byte>, data: seq<byte>)

  /** A node of the log tree as it is marshalled into its parent. */
  datatype NodeData = NodeData(interior: bool, value: Hash)

  function Combine(left: NodeData, right: NodeData): NodeData {
    NodeData(true, TreeHash(left, right))
  }

  /** All elements have the size of a hash: an element of any other size is None. */
  predicate AllHashes(proof: seq<Option<Hash>>) {
    forall i | 0 <= i < |proof| :: proof[i].Some?
  }

  function HashesOf(proof: seq<Option<Hash>>): (hashes: seq<Hash>)
    requires AllHashes(proof)
    ensures |hashes| == |proof| && forall i | 0 <= i < |proof| :: hashes[i] == proof[i].value
  {
    seq(|proof|, i requires 0 <= i < |proof| => proof[i].value)
  }
}

/** The reference meaning of a log root: the recursive Merkle tree hash of RFC 6962, section 2.1. */
module Merkle {
  import opened Bits
  import opened Hashes

  /** The largest power of two smaller than n. */
  function Split(n: nat): (k: nat)
    requires n >= 2
    ensures 1 <= k < n <= 2 * k
  {
    if n == 2 then 1 else 2 * Split((n + 1) / 2)
  }

  /** The root node over the nodes u, splitting at the largest power of two below their number. */
  function TreeOf(u: seq<NodeData>): NodeData
    requires |u| >= 1
    decreases |u|
  {
    if |u| == 1 then u[0]
    else Combine(TreeOf(u[..Split(|u|)]), TreeOf(u[Split(|u|)..]))
  }

  function Leaves(log: seq<Hash>): (u: seq<NodeData>)
    ensures |u| == |log|
    ensures forall i | 0 <= i < |u| :: u[i] == NodeData(false, log[i])
  {
    seq(|log|, i requires 0 <= i < |log| => NodeData(false, log[i]))
  }

  /** The root hash committing to a non-empty log. */
  function RootOf(log: seq<Hash>): Hash
    requires |log| >= 1
  {
    TreeOf(Leaves(log)).value
  }

  lemma {:induction false} SplitIsPower(n: nat) returns (e: nat)
    requires n >= 2
    ensures Split(n) == Pow2(e)
  {
    if n == 2 {
      e := 0;
    } else {
      e := SplitIsPower((n + 1) / 2);
      e := e + 1;
    }
  }

  lemma PowerBelowIsUnique(a: nat, b: nat, n: nat)
    requires Pow2(a) < n <= 2 * Pow2(a)
    requires Pow2(b) < n <= 2 * Pow2(b)
    ensures a == b
  {
    Pow2Reflects(a, b);
    Pow2Reflects(b, a);
  }

  /** `1 << log2(n)`, halved when it equals n, is that split point. */
  lemma SplitIsSource(n: nat)
    requires n >= 2
    ensures Split(n) == var k := Pow2(Log2(n)); if k == n then k / 2 else k
  {
    var e := SplitIsPower(n);
    var h := Log2(n);
    Log2Bounds(n);
    if Pow2(h) == n {
      assert h >= 1;
      PowerBelowIsUnique(e, h - 1, n);
    } else {
      PowerBelowIsUnique(e, h, n);
    }
  }

  lemma {:induction false} TreeFlag(u: seq<NodeData>)
    requires |u| >= 2
    ensures TreeOf(u).interior
  {
  }

  /** The root is the single entry, or the hash of the roots of the two parts, left before right, each
  marked as a leaf or an inner node; the left part is the largest power of two below the size. */
  lemma RootMeans(log: seq<Hash>, e: nat)
    requires |log| >= 1 && (|log| >= 2 ==> Pow2(e) < |log| <= 2 * Pow2(e))
    ensures |log| == 1 ==> RootOf(log) == log[0]
    ensures |log| >= 2 ==>
              var k := Pow2(e);
              RootOf(log) == TreeHash(NodeData(k > 1, RootOf(log[..k])), NodeData(|log| - k > 1, RootOf(log[k..])))
  {
    if |log| >= 2 {
      var f := SplitIsPower(|log|);
      PowerBelowIsUnique(e, f, |log|);
      var k, u := Pow2(e), Leaves(log);
      assert u[..k] == Leaves(log[..k]) && u[k..] == Leaves(log[k..]);
      if k > 1 { TreeFlag(u[..k]); }
      if |log| - k > 1 { TreeFlag(u[k..]); }
    }
  }

  // ---------------------------------------------------------------------------------------------
  // The same tree from the bottom up.

  /** Hash neighbours together; a lone last node is carried up unchanged. */
  function PairUp(u: seq<NodeData>): (v: seq<NodeData>)
    ensures |u| <= 2 * |v| <= |u| + 1
  {
    seq((|u| + 1) / 2, i requires 0 <= i < (|u| + 1) / 2 =>
      if 2 * i + 1 < |u| then Combine(u[2 * i], u[2 * i + 1]) else u[2 * i])
  }

  lemma PairUpConcat(u: seq<NodeData>, v: seq<NodeData>, h: nat)
    requires |u| == 2 * h
    ensures PairUp(u + v) == PairUp(u) + PairUp(v) && |PairUp(u)| == h
  {
    forall i | 0 <= i < (|u + v| + 1) / 2
      ensures PairUp(u + v)[i] == (PairUp(u) + PairUp(v))[i]
    {
      if i >= h { assert (u + v)[2 * i] == v[2 * (i - h)]; }
    }
  }

  lemma PairUpOne(a: NodeData)
    ensures PairUp([a]) == [a]
  {
  }

  lemma PairUpTwo(a: NodeData, b: NodeData)
    ensures PairUp([a, b]) == [Combine(a, b)]
  {
  }

  lemma PairUpEmpty()
    ensures PairUp([]) == []
  {
  }

  lemma TreeOfConcat(a: seq<NodeData>, b: seq<NodeData>)
    requires |a| >= 1 && |b| >= 1 && Split(|a| + |b|) == |a|
    ensures TreeOf(a + b) == Combine(TreeOf(a), TreeOf(b))
  {
    hide Split;
    var u := a + b;
    assert u[..Split(|u|)] == a && u[Split(|u|)..] == b;
  }

  lemma SplitTwo()
    ensures Split(2) == 1
  {
  }

  lemma SplitHalves(a: nat, b: nat, h: nat, c: nat)
    requires b >= 1 && a + b >= 3 && Split(a + b) == a
    requires a <= 2 * h <= a + 1 && b <= 2 * c <= b + 1
    ensures a == 2 * h && h + c >= 2 && Split(h + c) == h
  {
    var k := Split((a + b + 1) / 2);
    assert a == 2 * k;
    hide Split;
    assert h == k;
    assert (a + b + 1) / 2 == h + c;
  }

  lemma PairUpSplit(a: seq<NodeData>, b: seq<NodeData>)
    requires |a| >= 1 && |b| >= 1 && |a| + |b| >= 3 && Split(|a| + |b|) == |a|
    requires TreeOf(PairUp(a)) == TreeOf(a) && TreeOf(PairUp(b)) == TreeOf(b)
    ensures TreeOf(PairUp(a + b)) == TreeOf(a + b)
  {
    hide TreeOf, PairUp, Split;
    SplitHalves(|a|, |b|, |PairUp(a)|, |PairUp(b)|);
    PairUpConcat(a, b, |PairUp(a)|);
    TreeOfConcat(a, b);
    TreeOfConcat(PairUp(a), PairUp(b));
  }

  /** Pairing neighbours does not change the root. */
  lemma {:induction false} PairUpKeepsRoot(u: seq<NodeData>)
    requires |u| >= 1
    ensures TreeOf(PairUp(u)) == TreeOf(u)
    decreases |u|
  {
    hide PairUp, Split;
    if |u| == 1 {
      PairUpOne(u[0]);
      assert u == [u[0]];
    } else if |u| == 2 {
      PairUpTwo(u[0], u[1]);
      SplitTwo();
      TreeOfConcat([u[0]], [u[1]]);
      assert u == [u[0]] + [u[1]] == [u[0], u[1]];
    } else {
      hide *;
      var a, b := u[..Split(|u|)], u[Split(|u|)..];
      assert u == a + b;
      PairUpKeepsRoot(a);
      PairUpKeepsRoot(b);
      PairUpSplit(a, b);
    }
  }
}
