/** `SimpleRootCalculator`: a binary counter whose digits are subtree hashes. */
module Calculator {
  import opened Wrappers
  import opened Bits
  import opened Hashes
  import opened Merkle

  datatype Error =
    | EmptyChain
    | MalformedChain
    | InvalidInput
    | MalformedProof
    | ProofMismatch
    | Unexpected

  type LogResult<T> = Result<T, Error>

  /** Position i holds the root of a subtree of 2^i leaves, or nothing. */
  type Chain = seq<Option<NodeData>>

  // ---------------------------------------------------------------------------------------------
  // The two operations as functions of the chain.

  /** Add a node at a level, carrying into higher levels while they are occupied. */
  function InsertAt(chain: Chain, level: nat, nd: NodeData): (r: Chain)
    ensures |r| >= |chain| && |r| > level
    decreases level, |chain|
  {
    if level > 0 then
      if chain == [] then [None] + InsertAt([], level - 1, nd)
      else [chain[0]] + InsertAt(chain[1..], level - 1, nd)
    else if chain == [] then [Some(nd)]
    else if chain[0] == None then [Some(nd)] + chain[1..]
    else [None] + InsertAt(chain[1..], 0, Combine(chain[0].value, nd))
  }

  /** Fold the chain from low to high onto what has been gathered below it. */
  function Fold(chain: Chain, acc: Option<NodeData>): Option<NodeData> {
    if chain == [] then acc
    else Fold(chain[1..],
              if chain[0] == None then acc
              else if acc == None then chain[0]
              else Some(Combine(chain[0].value, acc.value)))
  }

  function RootResult(chain: Chain): LogResult<Hash> {
    if chain == [] then Err(EmptyChain)
    else match Fold(chain, None)
      case None => Err(MalformedChain)
      case Some(nd) => Ok(nd.value)
  }

  class SimpleRootCalculator {
    var chain: Chain

    constructor ()
      ensures chain == []
    {
      chain := [];
    }

    method Insert(level: nat, value: Hash)
      modifies this
      ensures chain == InsertAt(old(chain), level, NodeData(level != 0, value))
    {
      hide InsertAt;
      if level + 1 > |chain| {
        chain := chain + seq(level + 1 - |chain|, _ => None);
      }
      ghost var start := chain;
      Padded(old(chain), level, NodeData(level != 0, value));
      var acc := NodeData(level != 0, value);
      var i := level;
      LowPart(chain, level, acc);
      while i < |chain| && chain[i].Some?
        invariant level <= i <= |chain| == |start|
        invariant chain[i..] == start[i..]
        invariant chain[..i] + InsertAt(chain[i..], 0, acc) == InsertAt(start, level, NodeData(level != 0, value))
      {
        CarryUp(chain, i, acc);
        acc := Combine(chain[i].value, acc);
        chain := chain[i := None];
        i := i + 1;
      }
      Settle(chain, i, acc);
      if i == |chain| {
        chain := chain + [Some(acc)];
      } else {
        chain := chain[i := Some(acc)];
      }
    }

    method Root() returns (r: LogResult<Hash>)
      ensures r == RootResult(chain)
    {
      if chain == [] {
        return Err(EmptyChain);
      }
      var pos := 0;
      while pos < |chain| && chain[pos] == None
        invariant pos <= |chain|
        invariant Fold(chain, None) == Fold(chain[pos..], None)
      {
        assert chain[pos..][1..] == chain[pos + 1..];
        pos := pos + 1;
      }
      if pos == |chain| {
        return Err(MalformedChain);
      }
      var root := chain[pos].value;
      assert chain[pos..][1..] == chain[pos + 1..];
      var i := pos + 1;
      while i < |chain|
        invariant pos < i <= |chain|
        invariant Fold(chain, None) == Fold(chain[i..], Some(root))
      {
        assert chain[i..][1..] == chain[i + 1..];
        if chain[i].Some? {
          root := Combine(chain[i].value, root);
        }
        i := i + 1;
      }
      return Ok(root.value);
    }
  }

  lemma CarryUp(chain: Chain, i: nat, acc: NodeData)
    requires i < |chain| && chain[i].Some?
    ensures var next, nd := chain[i := None], Combine(chain[i].value, acc);
            && next[i + 1..] == chain[i + 1..]
            && next[..i + 1] + InsertAt(next[i + 1..], 0, nd) == chain[..i] + InsertAt(chain[i..], 0, acc)
  {
    hide Combine;
    var next, nd := chain[i := None], Combine(chain[i].value, acc);
    assert chain[i..][1..] == chain[i + 1..] == next[i + 1..];
    assert next[..i + 1] == chain[..i] + [None];
  }

  lemma Settle(chain: Chain, i: nat, acc: NodeData)
    requires i <= |chain| && (i < |chain| ==> chain[i] == None)
    ensures chain[..i] + InsertAt(chain[i..], 0, acc) == if i == |chain| then chain + [Some(acc)] else chain[i := Some(acc)]
  {
    if i == |chain| {
      assert chain[i..] == [] && chain[..i] == chain;
    } else {
      assert chain[i..][1..] == chain[i + 1..];
      assert chain[i := Some(acc)] == chain[..i] + [Some(acc)] + chain[i + 1..];
    }
  }

  lemma {:induction false} Padded(chain: Chain, level: nat, nd: NodeData)
    ensures level + 1 > |chain| ==>
              InsertAt(chain + seq(level + 1 - |chain|, _ => None), level, nd) == InsertAt(chain, level, nd)
    decreases level
  {
    if level + 1 > |chain| {
      var p := chain + seq(level + 1 - |chain|, _ => None);
      if level == 0 {
        assert p == [None];
      } else if chain == [] {
        assert p[1..] == [] + seq(level, _ => None);
        Padded([], level - 1, nd);
      } else {
        assert p[1..] == chain[1..] + seq(level + 1 - |chain|, _ => None);
        Padded(chain[1..], level - 1, nd);
      }
    }
  }

  lemma {:induction false} LowPart(chain: Chain, level: nat, nd: NodeData)
    requires level < |chain|
    ensures InsertAt(chain, level, nd) == chain[..level] + InsertAt(chain[level..], 0, nd)
    decreases level
  {
    if level > 0 {
      LowPart(chain[1..], level - 1, nd);
      assert chain[1..][level - 1..] == chain[level..];
      assert [chain[0]] + chain[1..][..level - 1] == chain[..level];
    } else {
      assert chain[0..] == chain;
    }
  }

  // ---------------------------------------------------------------------------------------------
  // Refinement of the recursive Merkle hash.

  /** The chain is the binary decomposition of the nodes u, one subtree root per set digit of |u|. */
  ghost predicate Represents(chain: Chain, u: seq<NodeData>)
    decreases |chain|
  {
    if chain == [] then u == []
    else if |u| % 2 == 1 then
      chain[0] == Some(u[|u| - 1]) && Represents(chain[1..], PairUp(u[..|u| - 1]))
    else
      chain[0] == None && Represents(chain[1..], PairUp(u))
  }

  /** count is a multiple of 2^level. */
  ghost predicate Aligned(count: nat, level: nat)
    decreases level
  {
    level == 0 || (count % 2 == 0 && Aligned(count / 2, level - 1))
  }

  lemma TailPairs(u: seq<NodeData>, t: NodeData)
    ensures |u| % 2 == 0 ==> PairUp(u + [t]) == PairUp(u) + [t]
    ensures |u| % 2 == 1 ==> PairUp(u + [t]) == PairUp(u[..|u| - 1]) + [Combine(u[|u| - 1], t)]
  {
    hide PairUp;
    if |u| % 2 == 0 {
      PairUpConcat(u, [t], |u| / 2);
      PairUpOne(t);
    } else {
      var v, a := u[..|u| - 1], u[|u| - 1];
      PairUpConcat(v, [a, t], |v| / 2);
      PairUpTwo(a, t);
      assert u + [t] == v + [a, t];
    }
  }

  /** Folding a chain that represents u onto a last node t gives the Merkle root of u followed by t. */
  lemma {:induction false} FoldOnto(chain: Chain, u: seq<NodeData>, t: NodeData)
    requires Represents(chain, u)
    ensures Fold(chain, Some(t)) == Some(TreeOf(u + [t]))
    decreases |chain|
  {
    hide PairUp;
    if chain == [] {
      assert u + [t] == [t];
    } else {
      TailPairs(u, t);
      PairUpKeepsRoot(u + [t]);
      hide TreeOf;
      if |u| % 2 == 1 {
        FoldOnto(chain[1..], PairUp(u[..|u| - 1]), Combine(u[|u| - 1], t));
      } else {
        FoldOnto(chain[1..], PairUp(u), t);
      }
    }
  }

  lemma OddDigit(chain: Chain, u: seq<NodeData>)
    requires chain != [] && Represents(chain, u) && |u| % 2 == 1
    ensures chain[0] == Some(u[|u| - 1]) && Represents(chain[1..], PairUp(u[..|u| - 1]))
    ensures Fold(chain, None) == Fold(chain[1..], Some(u[|u| - 1]))
    ensures |u[..|u| - 1]| % 2 == 0
  {
    hide PairUp, Combine;
  }

  lemma FoldIsRootOdd(chain: Chain, u: seq<NodeData>)
    requires chain != [] && Represents(chain, u) && |u| % 2 == 1
    ensures Fold(chain, None) == Some(TreeOf(u))
  {
    hide PairUp, TreeOf, Represents, Fold, Combine;
    var v, a := u[..|u| - 1], u[|u| - 1];
    assert v + [a] == u;
    OddDigit(chain, u);
    TailPairs(v, a);
    FoldOnto(chain[1..], PairUp(v), a);
    PairUpKeepsRoot(u);
  }

  /** Folding a chain that represents u gives the Merkle root of u. */
  lemma {:induction false} FoldIsRoot(chain: Chain, u: seq<NodeData>)
    requires Represents(chain, u)
    ensures Fold(chain, None) == if u == [] then None else Some(TreeOf(u))
    decreases |chain|
  {
    hide PairUp, TreeOf;
    if chain != [] {
      if |u| % 2 == 1 {
        FoldIsRootOdd(chain, u);
      } else {
        FoldIsRoot(chain[1..], PairUp(u));
        if u == [] { PairUpEmpty(); } else { PairUpKeepsRoot(u); }
      }
    }
  }

  lemma RepresentsEven(chain: Chain, u: seq<NodeData>)
    requires |u| % 2 == 0 && Represents(chain, PairUp(u))
    ensures Represents([None] + chain, u)
  {
    hide PairUp;
    assert ([None] + chain)[1..] == chain;
  }

  lemma RepresentsOdd(chain: Chain, u: seq<NodeData>, a: NodeData)
    requires |u| % 2 == 0 && Represents(chain, PairUp(u))
    ensures Represents([Some(a)] + chain, u + [a])
  {
    hide PairUp;
    assert ([Some(a)] + chain)[1..] == chain;
    assert (u + [a])[..|u|] == u;
  }

  /** The digits above the lowest, once that one is empty. */
  function Above(chain: Chain): Chain {
    if chain == [] then [] else chain[1..]
  }

  lemma AboveRepresents(chain: Chain, u: seq<NodeData>)
    requires |u| % 2 == 0 && Represents(chain, u)
    ensures Represents(Above(chain), PairUp(u))
    ensures forall level: nat, nd: NodeData | level > 0 ::
              InsertAt(chain, level, nd) == [None] + InsertAt(Above(chain), level - 1, nd)
  {
    hide PairUp;
    PairUpEmpty();
  }

  lemma {:induction false} InsertOne(chain: Chain, u: seq<NodeData>, nd: NodeData)
    requires Represents(chain, u)
    ensures Represents(InsertAt(chain, 0, nd), u + [nd])
    decreases |chain|
  {
    hide PairUp;
    TailPairs(u, nd);
    PairUpEmpty();
    if chain == [] {
      RepresentsOdd([], u, nd);
    } else if |u| % 2 == 1 {
      var c := Combine(u[|u| - 1], nd);
      InsertOne(chain[1..], PairUp(u[..|u| - 1]), c);
      RepresentsEven(InsertAt(chain[1..], 0, c), u + [nd]);
    } else {
      RepresentsOdd(chain[1..], u, nd);
    }
  }

  lemma InsertAbove(chain: Chain, u: seq<NodeData>, level: nat, block: seq<NodeData>, nd: NodeData, h: nat, k: nat)
    requires level > 0 && |u| == 2 * h && |block| == 2 * k && Represents(chain, u)
    requires Represents(InsertAt(Above(chain), level - 1, nd), PairUp(u) + PairUp(block))
    ensures Represents(InsertAt(chain, level, nd), u + block)
  {
    hide PairUp, Represents, InsertAt;
    AboveRepresents(chain, u);
    PairUpConcat(u, block, h);
    RepresentsEven(InsertAt(Above(chain), level - 1, nd), u + block);
  }

  lemma AlignedHalf(count: nat, level: nat) returns (h: nat)
    requires level > 0 && Aligned(count, level)
    ensures count == 2 * h && Aligned(h, level - 1)
    ensures Pow2(level) == 2 * Pow2(level - 1)
  {
    h := count / 2;
  }

  lemma SingleBlock(block: seq<NodeData>, level: nat)
    requires level == 0 && 1 <= |block| <= Pow2(level)
    ensures block == [TreeOf(block)]
  {
  }

  /** Inserting a full subtree of 2^level nodes at an aligned position appends its nodes. */
  lemma {:induction false} InsertAppends(chain: Chain, u: seq<NodeData>, level: nat, block: seq<NodeData>, nd: NodeData)
    requires Represents(chain, u) && Aligned(|u|, level)
    requires |block| == Pow2(level) && nd == TreeOf(block)
    ensures Represents(InsertAt(chain, level, nd), u + block)
    decreases level
  {
    hide *;
    if level > 0 {
      var h := AlignedHalf(|u|, level);
      var k := Pow2(level - 1);
      AboveRepresents(chain, u);
      PairUpKeepsRoot(block);
      PairUpConcat(u, [], h);
      PairUpConcat(block, [], k);
      InsertAppends(Above(chain), PairUp(u), level - 1, PairUp(block), nd);
      InsertAbove(chain, u, level, block, nd, h, k);
    } else {
      SingleBlock(block, level);
      InsertOne(chain, u, nd);
    }
  }

  /** The last subtree may be ragged: any block of at most 2^level nodes still gives the right root. */
  lemma {:induction false} InsertLast(chain: Chain, u: seq<NodeData>, level: nat, block: seq<NodeData>, nd: NodeData)
    requires Represents(chain, u) && Aligned(|u|, level)
    requires 1 <= |block| <= Pow2(level) && nd == TreeOf(block)
    ensures Fold(InsertAt(chain, level, nd), None) == Some(TreeOf(u + block))
    decreases level
  {
    hide *;
    if level > 0 {
      var h := AlignedHalf(|u|, level);
      AboveRepresents(chain, u);
      PairUpConcat(u, block, h);
      PairUpKeepsRoot(block);
      PairUpKeepsRoot(u + block);
      InsertLast(Above(chain), PairUp(u), level - 1, PairUp(block), nd);
      FoldSkips(InsertAt(Above(chain), level - 1, nd));
    } else {
      SingleBlock(block, level);
      InsertOne(chain, u, nd);
      FoldIsRoot(InsertAt(chain, 0, nd), u + block);
    }
  }

  lemma FoldSkips(chain: Chain)
    ensures Fold([None] + chain, None) == Fold(chain, None)
  {
    assert ([None] + chain)[1..] == chain;
  }

  // ---------------------------------------------------------------------------------------------
  // The calculator loses nothing: chains of one shape with equal roots are equal.

  /** Occupied in the same places by nodes of the same kind. */
  ghost predicate SameShape(a: Chain, b: Chain) {
    |a| == |b| && forall i | 0 <= i < |a| ::
      a[i].Some? == b[i].Some? && (a[i].Some? ==> a[i].value.interior == b[i].value.interior)
  }

  lemma {:induction false} InsertKeepsShape(a: Chain, b: Chain, level: nat, x: NodeData, y: NodeData)
    requires SameShape(a, b) && x.interior == y.interior
    ensures SameShape(InsertAt(a, level, x), InsertAt(b, level, y))
    decreases level, |a|
  {
    if level > 0 {
      InsertKeepsShape(if a == [] then [] else a[1..], if b == [] then [] else b[1..], level - 1, x, y);
    } else if a != [] && a[0].Some? {
      InsertKeepsShape(a[1..], b[1..], 0, Combine(a[0].value, x), Combine(b[0].value, y));
    }
  }

  lemma {:induction false} InsertIsInjective(a: Chain, b: Chain, level: nat, x: NodeData, y: NodeData)
    requires SameShape(a, b) && x.interior == y.interior
    requires InsertAt(a, level, x) == InsertAt(b, level, y)
    ensures a == b && x == y
    decreases level, |a|
  {
    var ra, rb := InsertAt(a, level, x), InsertAt(b, level, y);
    if level > 0 {
      var ta, tb := if a == [] then [] else a[1..], if b == [] then [] else b[1..];
      assert ra[1..] == InsertAt(ta, level - 1, x);
      assert rb[1..] == InsertAt(tb, level - 1, y);
      InsertIsInjective(ta, tb, level - 1, x, y);
      if a != [] {
        assert ra[0] == a[0] && rb[0] == b[0];
        assert a == [a[0]] + a[1..] && b == [b[0]] + b[1..];
      }
    } else if a != [] {
      if a[0].Some? {
        assert ra[1..] == InsertAt(a[1..], 0, Combine(a[0].value, x));
        assert rb[1..] == InsertAt(b[1..], 0, Combine(b[0].value, y));
        InsertIsInjective(a[1..], b[1..], 0, Combine(a[0].value, x), Combine(b[0].value, y));
      } else {
        assert ra[0] == Some(x) && rb[0] == Some(y);
        assert ra[1..] == a[1..] && rb[1..] == b[1..];
      }
      assert a == [a[0]] + a[1..] && b == [b[0]] + b[1..];
    } else {
      assert ra[0] == Some(x) && rb[0] == Some(y);
    }
  }

  lemma {:induction false} FoldIsInjective(a: Chain, b: Chain, x: Option<NodeData>, y: Option<NodeData>)
    requires SameShape(a, b) && SameShape([x], [y])
    requires Fold(a, x).Some? && Fold(b, y).Some? && Fold(a, x).value.value == Fold(b, y).value.value
    ensures a == b && x == y
    decreases |a|
  {
    if a == [] {
      assert [x][0] == x && [y][0] == y;
    } else {
      assert [x][0] == x && [y][0] == y;
      var nx := if a[0] == None then x else if x == None then a[0] else Some(Combine(a[0].value, x.value));
      var ny := if b[0] == None then y else if y == None then b[0] else Some(Combine(b[0].value, y.value));
      FoldIsInjective(a[1..], b[1..], nx, ny);
      assert a == [a[0]] + a[1..] && b == [b[0]] + b[1..];
    }
  }
}
