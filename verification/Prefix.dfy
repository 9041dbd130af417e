/** The prefix tree: 256 levels of hashing bind a key to its counter and first position. */
module Prefix {
  import opened Wrappers
  import opened Bits
  import opened Hashes

  const KEY_LENGTH: nat := 32
  const DEPTH: nat := 256

  datatype PrefixProof = PrefixProof(counter: nat, proof: seq<Option<Hash>>)

  /** Keys are 32 bytes. */
  predicate IsKey(key: seq<byte>) {
    |key| == KEY_LENGTH
  }

  /** A 32-byte index. */
  type Key = k: seq<byte> | IsKey(k) witness seq(KEY_LENGTH, _ => 0)

  /** The n-th bit of the key, most significant first. */
  predicate KeyBit(key: seq<byte>, n: nat)
    requires IsKey(key) && n < DEPTH
  {
    key[n / 8] / Pow2(7 - n % 8) % 2 == 1
  }

  function ParentHash(bit: bool, value: Hash, sibling: Hash): Hash {
    if bit then PrefixParent(sibling, value) else PrefixParent(value, sibling)
  }

  /** The hash at a depth, from the value at the bottom and the siblings listed bottom-up. */
  ghost function HashAt(key: seq<byte>, value: Hash, proof: seq<Option<Hash>>, d: nat): Hash
    requires IsKey(key) && d <= DEPTH == |proof| && AllHashes(proof)
    decreases DEPTH - d
  {
    if d == DEPTH then value
    else ParentHash(KeyBit(key, d), HashAt(key, value, proof, d + 1), proof[DEPTH - 1 - d].value)
  }

  method EvaluateProof(key: seq<byte>, value: Hash, proof: seq<Option<Hash>>) returns (r: Option<Hash>)
    requires IsKey(key)
    ensures r.Some? <==> |proof| == DEPTH && AllHashes(proof)
    ensures r.Some? ==> r.value == HashAt(key, value, proof, 0)
  {
    if |proof| != 8 * KEY_LENGTH {
      return None;
    }
    var v := value;
    var i := 0;
    while i < |proof|
      invariant 0 <= i <= |proof|
      invariant forall j | 0 <= j < i :: proof[j].Some?
      invariant AllHashes(proof) ==> v == HashAt(key, value, proof, DEPTH - i)
    {
      if proof[i] == None {
        return None;
      }
      var n := |proof| - i - 1;
      v := ParentHash(KeyBit(key, n), v, proof[i].value);
      i := i + 1;
    }
    r := Some(v);
  }

  // ---------------------------------------------------------------------------------------------
  // What a root stores.

  /** Follow the bits of a key down from the hash at depth d. */
  function Follow(h: Hash, key: seq<byte>, d: nat): Option<Hash>
    requires IsKey(key) && d <= DEPTH
    decreases DEPTH - d
  {
    if d == DEPTH then Some(h)
    else if !h.PrefixParent? then None
    else Follow(if KeyBit(key, d) then h.one else h.zero, key, d + 1)
  }

  /** The entry a prefix tree stores for a key: its counter and first position. */
  function Stored(root: Hash, key: seq<byte>): Option<(nat, nat)>
    requires IsKey(key)
  {
    match Follow(root, key, 0)
    case Some(PrefixLeaf(k, ctr, pos)) => if k == key then Some((ctr, pos)) else None
    case _ => None
  }

  /** The siblings passed on the way down, listed bottom-up. */
  function SiblingsBelow(h: Hash, key: seq<byte>, d: nat): seq<Option<Hash>>
    requires IsKey(key) && d <= DEPTH && Follow(h, key, d).Some?
    decreases DEPTH - d
  {
    if d == DEPTH then []
    else
      var bit := KeyBit(key, d);
      SiblingsBelow(if bit then h.one else h.zero, key, d + 1) + [Some(if bit then h.zero else h.one)]
  }

  lemma {:induction false} EvaluatedFollows(key: seq<byte>, value: Hash, proof: seq<Option<Hash>>, d: nat)
    requires IsKey(key) && d <= DEPTH == |proof| && AllHashes(proof)
    ensures Follow(HashAt(key, value, proof, d), key, d) == Some(value)
    ensures SiblingsBelow(HashAt(key, value, proof, d), key, d) == proof[..DEPTH - d]
    decreases DEPTH - d
  {
    hide KeyBit;
    if d < DEPTH {
      EvaluatedFollows(key, value, proof, d + 1);
      assert proof[..DEPTH - d] == proof[..DEPTH - d - 1] + [proof[DEPTH - 1 - d]];
    }
  }

  lemma {:induction false} FollowedEvaluates(h: Hash, key: seq<byte>, proof: seq<Option<Hash>>, d: nat)
    requires IsKey(key) && d <= DEPTH == |proof| && AllHashes(proof)
    requires Follow(h, key, d).Some? && SiblingsBelow(h, key, d) == proof[..DEPTH - d]
    ensures HashAt(key, Follow(h, key, d).value, proof, d) == h
    decreases DEPTH - d
  {
    hide KeyBit;
    if d < DEPTH {
      var below := SiblingsBelow(if KeyBit(key, d) then h.one else h.zero, key, d + 1);
      SiblingsLength(if KeyBit(key, d) then h.one else h.zero, key, d + 1);
      assert proof[..DEPTH - d][DEPTH - d - 1] == proof[DEPTH - 1 - d];
      assert proof[..DEPTH - d][..DEPTH - d - 1] == proof[..DEPTH - d - 1];
      assert SiblingsBelow(h, key, d)[..DEPTH - d - 1] == below;
      FollowedEvaluates(if KeyBit(key, d) then h.one else h.zero, key, proof, d + 1);
    }
  }

  lemma {:induction false} SiblingsLength(h: Hash, key: seq<byte>, d: nat)
    requires IsKey(key) && d <= DEPTH && Follow(h, key, d).Some?
    ensures |SiblingsBelow(h, key, d)| == DEPTH - d && AllHashes(SiblingsBelow(h, key, d))
    decreases DEPTH - d
  {
    hide KeyBit;
    if d < DEPTH { SiblingsLength(if KeyBit(key, d) then h.one else h.zero, key, d + 1); }
  }

  /** The root that makes a search result valid, if the proof is well formed. */
  ghost function EvaluateSpec(key: seq<byte>, pos: nat, res: PrefixProof): Option<Hash>
    requires IsKey(key)
  {
    if |res.proof| == DEPTH && AllHashes(res.proof)
    then Some(HashAt(key, PrefixLeaf(key, res.counter, pos), res.proof, 0))
    else None
  }

  method Evaluate(key: seq<byte>, pos: nat, res: PrefixProof) returns (r: Option<Hash>)
    requires IsKey(key)
    ensures r == EvaluateSpec(key, pos, res)
  {
    hide HashAt;
    r := EvaluateProof(key, PrefixLeaf(key, res.counter, pos), res.proof);
  }

  /** Binding, both ways: a proof evaluates to a root exactly when that root stores the counter and
  position for the key and the proof lists the siblings on the way. */
  lemma PrefixIsBinding(key: seq<byte>, pos: nat, res: PrefixProof, root: Hash)
    requires IsKey(key)
    ensures EvaluateSpec(key, pos, res) == Some(root) <==>
              Stored(root, key) == Some((res.counter, pos)) && SiblingsBelow(root, key, 0) == res.proof
  {
    hide HashAt, Follow, SiblingsBelow;
    var leaf := PrefixLeaf(key, res.counter, pos);
    if |res.proof| == DEPTH && AllHashes(res.proof) {
      EvaluatedFollows(key, leaf, res.proof, 0);
      assert res.proof[..DEPTH] == res.proof;
    }
    if Stored(root, key) == Some((res.counter, pos)) && SiblingsBelow(root, key, 0) == res.proof {
      SiblingsLength(root, key, 0);
      assert res.proof[..DEPTH] == res.proof;
      FollowedEvaluates(root, key, res.proof, 0);
    }
  }

  // ---------------------------------------------------------------------------------------------
  // What the bits of a key are, and where they lead.

  /** The bytes as one number, most significant first. */
  function Number(bytes: seq<byte>): nat {
    if bytes == [] then 0 else 256 * Number(bytes[..|bytes| - 1]) + bytes[|bytes| - 1]
  }

  /** The first n bits of a key as a number, most significant first. */
  function BitsNumber(key: seq<byte>, n: nat): nat
    requires IsKey(key) && n <= DEPTH
  {
    if n == 0 then 0 else 2 * BitsNumber(key, n - 1) + (if KeyBit(key, n - 1) then 1 else 0)
  }

  lemma ByteBits(b: byte)
    ensures b == 128 * (b / 128 % 2) + 64 * (b / 64 % 2) + 32 * (b / 32 % 2) + 16 * (b / 16 % 2)
                 + 8 * (b / 8 % 2) + 4 * (b / 4 % 2) + 2 * (b / 2 % 2) + b % 2
  {
    NextHalf(b, 1);
    NextHalf(b, 2);
    NextHalf(b, 4);
    NextHalf(b, 8);
    NextHalf(b, 16);
    NextHalf(b, 32);
    NextHalf(b, 64);
    assert b / 128 < 2;
  }

  lemma NextHalf(b: nat, m: nat)
    requires m in {1, 2, 4, 8, 16, 32, 64}
    ensures b / m == 2 * (b / (2 * m)) + b / m % 2
  {
    assert b / m / 2 == b / (2 * m);
  }

  lemma KeyBitOf(key: seq<byte>, k: nat, i: nat)
    requires IsKey(key) && k < 32 && i < 8
    ensures KeyBit(key, 8 * k + i) <==> key[k] / Pow2(7 - i) % 2 == 1
  {
    hide Pow2;
    assert (8 * k + i) / 8 == k && (8 * k + i) % 8 == i;
  }

  lemma SmallPowers()
    ensures Pow2(7) == 128 && Pow2(6) == 64 && Pow2(5) == 32 && Pow2(4) == 16
    ensures Pow2(3) == 8 && Pow2(2) == 4 && Pow2(1) == 2 && Pow2(0) == 1
  {
  }

  function Digit(key: seq<byte>, n: nat): nat
    requires IsKey(key) && n < DEPTH
  {
    if KeyBit(key, n) then 1 else 0
  }

  lemma NextBit(key: seq<byte>, n: nat)
    requires IsKey(key) && n < DEPTH
    ensures BitsNumber(key, n + 1) == 2 * BitsNumber(key, n) + Digit(key, n)
  {
    hide KeyBit;
  }

  lemma DigitOf(key: seq<byte>, k: nat, i: nat, power: nat)
    requires IsKey(key) && k < 32 && i < 8 && power == Pow2(7 - i)
    ensures power > 0 && Digit(key, 8 * k + i) == key[k] / power % 2
  {
    hide KeyBit, Pow2;
    KeyBitOf(key, k, i);
    Pow2Positive(7 - i);
  }

  lemma {:induction false} Pow2Positive(e: nat)
    ensures Pow2(e) > 0
  {
    if e > 0 { Pow2Positive(e - 1); }
  }

  lemma NextByte(key: seq<byte>, k: nat)
    requires IsKey(key) && k < 32
    ensures BitsNumber(key, 8 * k + 8) == 256 * BitsNumber(key, 8 * k) + key[k]
  {
    hide BitsNumber, Digit, Pow2;
    SmallPowers();
    NextBit(key, 8 * k);
    NextBit(key, 8 * k + 1);
    NextBit(key, 8 * k + 2);
    NextBit(key, 8 * k + 3);
    NextBit(key, 8 * k + 4);
    NextBit(key, 8 * k + 5);
    NextBit(key, 8 * k + 6);
    NextBit(key, 8 * k + 7);
    DigitOf(key, k, 0, 128);
    DigitOf(key, k, 1, 64);
    DigitOf(key, k, 2, 32);
    DigitOf(key, k, 3, 16);
    DigitOf(key, k, 4, 8);
    DigitOf(key, k, 5, 4);
    DigitOf(key, k, 6, 2);
    DigitOf(key, k, 7, 1);
    ByteBits(key[k]);
  }

  /** The bits of a key are the binary digits of its bytes read as one number. */
  lemma {:induction false} BitsAreNumber(key: seq<byte>, k: nat)
    requires IsKey(key) && k <= 32
    ensures BitsNumber(key, 8 * k) == Number(key[..k])
    decreases k
  {
    hide KeyBit;
    if k > 0 {
      BitsAreNumber(key, k - 1);
      NextByte(key, k - 1);
      assert key[..k][..k - 1] == key[..k - 1];
    }
  }

  lemma {:induction false} NumberIsInjective(a: seq<byte>, b: seq<byte>)
    requires |a| == |b| && Number(a) == Number(b)
    ensures a == b
    decreases |a|
  {
    if a != [] {
      var x, y := a[..|a| - 1], b[..|b| - 1];
      assert a[|a| - 1] == b[|b| - 1] && Number(x) == Number(y);
      NumberIsInjective(x, y);
      assert a == x + [a[|a| - 1]] && b == y + [b[|b| - 1]];
    }
  }

  /** The keys agree on their first d bits. */
  ghost predicate AgreeUpTo(a: seq<byte>, b: seq<byte>, d: nat)
    requires IsKey(a) && IsKey(b) && d <= DEPTH
  {
    forall n | 0 <= n < d :: KeyBit(a, n) == KeyBit(b, n)
  }

  lemma {:induction false} AgreeingNumbers(a: seq<byte>, b: seq<byte>, d: nat)
    requires IsKey(a) && IsKey(b) && d <= DEPTH && AgreeUpTo(a, b, d)
    ensures BitsNumber(a, d) == BitsNumber(b, d)
    decreases d
  {
    hide KeyBit;
    if d > 0 { AgreeingNumbers(a, b, d - 1); }
  }

  lemma {:induction false} StaysSmaller(a: seq<byte>, b: seq<byte>, d: nat, m: nat)
    requires IsKey(a) && IsKey(b) && d <= m <= DEPTH && BitsNumber(a, d) < BitsNumber(b, d)
    ensures BitsNumber(a, m) < BitsNumber(b, m)
    decreases m - d
  {
    hide KeyBit;
    if d < m { StaysSmaller(a, b, d, m - 1); }
  }

  /** The first bit where two keys differ: the smaller key has a zero there. */
  lemma FirstDifference(a: seq<byte>, b: seq<byte>) returns (d: nat)
    requires IsKey(a) && IsKey(b) && Number(a) < Number(b)
    ensures d < DEPTH && AgreeUpTo(a, b, d) && !KeyBit(a, d) && KeyBit(b, d)
  {
    hide KeyBit, Number;
    BitsAreNumber(a, 32);
    BitsAreNumber(b, 32);
    assert a[..32] == a && b[..32] == b;
    d := 0;
    while d < DEPTH && KeyBit(a, d) == KeyBit(b, d)
      invariant d <= DEPTH && AgreeUpTo(a, b, d)
    {
      d := d + 1;
    }
    AgreeingNumbers(a, b, d);
    if d < DEPTH && KeyBit(a, d) { StaysSmaller(b, a, d + 1, DEPTH); }
  }

  /** The node reached from the root by the first n bits of a key: zero to the left, one to the right. */
  function NodeAt(root: Hash, key: seq<byte>, n: nat): Option<Hash>
    requires IsKey(key) && n <= DEPTH
  {
    if n == 0 then Some(root)
    else match NodeAt(root, key, n - 1)
      case Some(PrefixParent(zero, one)) => Some(if KeyBit(key, n - 1) then one else zero)
      case _ => None
  }

  /** At depth d the way of the key goes through an inner node, past the sibling listed for it. */
  ghost predicate Passes(root: Hash, key: seq<byte>, d: nat, proof: seq<Option<Hash>>)
    requires IsKey(key) && d < 256 == |proof|
  {
    match NodeAt(root, key, d)
    case Some(PrefixParent(zero, one)) => proof[255 - d] == Some(if KeyBit(key, d) then zero else one)
    case _ => false
  }

  lemma {:induction false} HashesOnTheWay(key: seq<byte>, value: Hash, proof: seq<Option<Hash>>, d: nat)
    requires IsKey(key) && d <= DEPTH == |proof| && AllHashes(proof)
    ensures NodeAt(HashAt(key, value, proof, 0), key, d) == Some(HashAt(key, value, proof, d))
    decreases d
  {
    hide KeyBit;
    if d > 0 { HashesOnTheWay(key, value, proof, d - 1); }
  }

  lemma {:induction false} WayHashes(root: Hash, key: seq<byte>, value: Hash, proof: seq<Option<Hash>>, d: nat)
    requires IsKey(key) && d <= DEPTH == |proof| && AllHashes(proof) && NodeAt(root, key, DEPTH) == Some(value)
    requires forall n | 0 <= n < DEPTH :: Passes(root, key, n, proof)
    ensures NodeAt(root, key, d) == Some(HashAt(key, value, proof, d))
    decreases DEPTH - d
  {
    hide KeyBit;
    if d < DEPTH {
      WayHashes(root, key, value, proof, d + 1);
      assert Passes(root, key, d, proof);
    }
  }

  /** A proof evaluates to a root exactly when the 256 bits of the key lead from the root to the leaf with
  its counter and position, and the proof lists the siblings passed, the lowest one first. */
  lemma EvaluatesMeans(key: seq<byte>, pos: nat, res: PrefixProof, root: Hash)
    requires IsKey(key)
    ensures EvaluateSpec(key, pos, res) == Some(root) <==>
              && |res.proof| == 256 && NodeAt(root, key, 256) == Some(PrefixLeaf(key, res.counter, pos))
              && forall d | 0 <= d < 256 :: Passes(root, key, d, res.proof)
  {
    hide HashAt, NodeAt, KeyBit, Passes;
    var leaf := PrefixLeaf(key, res.counter, pos);
    if EvaluateSpec(key, pos, res) == Some(root) {
      HashesOnTheWay(key, leaf, res.proof, DEPTH);
      BottomIs(key, leaf, res.proof);
      forall d | 0 <= d < DEPTH
        ensures Passes(root, key, d, res.proof)
      {
        HashesOnTheWay(key, leaf, res.proof, d);
        SiblingAt(root, key, leaf, res.proof, d);
      }
    } else if |res.proof| == 256 && NodeAt(root, key, 256) == Some(leaf)
              && forall d | 0 <= d < 256 :: Passes(root, key, d, res.proof) {
      PassedAreHashes(root, key, res.proof);
      WayHashes(root, key, leaf, res.proof, 0);
      TopIs(root, key);
    }
  }

  lemma BottomIs(key: seq<byte>, value: Hash, proof: seq<Option<Hash>>)
    requires IsKey(key) && DEPTH == |proof| && AllHashes(proof)
    ensures HashAt(key, value, proof, DEPTH) == value
  {
  }

  lemma TopIs(root: Hash, key: seq<byte>)
    requires IsKey(key)
    ensures NodeAt(root, key, 0) == Some(root)
  {
  }

  lemma SiblingAt(root: Hash, key: seq<byte>, value: Hash, proof: seq<Option<Hash>>, d: nat)
    requires IsKey(key) && d < DEPTH == |proof| && AllHashes(proof)
    requires NodeAt(root, key, d) == Some(HashAt(key, value, proof, d))
    ensures Passes(root, key, d, proof)
  {
    hide KeyBit, NodeAt;
  }

  lemma PassedAreHashes(root: Hash, key: seq<byte>, proof: seq<Option<Hash>>)
    requires IsKey(key) && |proof| == DEPTH && forall d | 0 <= d < DEPTH :: Passes(root, key, d, proof)
    ensures AllHashes(proof)
  {
    hide KeyBit, NodeAt;
    forall i | 0 <= i < |proof|
      ensures proof[i].Some?
    {
      assert Passes(root, key, 255 - i, proof);
    }
  }

  /** Two keys stored under one root part at the first bit where they differ, the smaller one to the left. */
  lemma StoredKeysPart(root: Hash, a: seq<byte>, b: seq<byte>) returns (d: nat, zero: Hash, one: Hash)
    requires IsKey(a) && IsKey(b) && Number(a) < Number(b)
    requires Stored(root, a).Some? && Stored(root, b).Some?
    ensures d < DEPTH && AgreeUpTo(a, b, d)
    ensures NodeAt(root, a, d) == NodeAt(root, b, d) == Some(PrefixParent(zero, one))
    ensures NodeAt(root, a, d + 1) == Some(zero) && NodeAt(root, b, d + 1) == Some(one)
  {
    hide KeyBit, Number, Follow;
    d := FirstDifference(a, b);
    SameWay(root, a, b, d);
    FollowFrom(root, a, d);
    InnerOnTheWay(NodeAt(root, a, d).value, a, d);
    var node := NodeAt(root, a, d).value;
    zero, one := node.zero, node.one;
  }

  lemma {:induction false} SameWay(root: Hash, a: seq<byte>, b: seq<byte>, d: nat)
    requires IsKey(a) && IsKey(b) && d <= DEPTH && AgreeUpTo(a, b, d)
    ensures NodeAt(root, a, d) == NodeAt(root, b, d)
    decreases d
  {
    hide KeyBit;
    if d > 0 { SameWay(root, a, b, d - 1); }
  }

  /** Following the bits is walking down node by node. */
  lemma {:induction false} FollowFrom(root: Hash, key: seq<byte>, n: nat)
    requires IsKey(key) && n <= DEPTH && Follow(root, key, 0).Some?
    ensures NodeAt(root, key, n).Some? && Follow(NodeAt(root, key, n).value, key, n) == Follow(root, key, 0)
    decreases n
  {
    hide KeyBit;
    if n > 0 { FollowFrom(root, key, n - 1); }
  }

  lemma InnerOnTheWay(node: Hash, key: seq<byte>, d: nat)
    requires IsKey(key) && d < DEPTH && Follow(node, key, d).Some?
    ensures node.PrefixParent?
  {
    hide KeyBit;
  }
}
