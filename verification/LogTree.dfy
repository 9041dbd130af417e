/** Navigating the log tree, and covering its leaves with subtrees. */
module LogTree {
  import opened Wrappers
  import opened Bits
  import opened Geometry
  import opened LeftBalanced
  import opened BoundedTree
  import opened Hashes
  import opened Merkle
  import opened Calculator

  /** The number of nodes needed to store a tree with n leaves. */
  function NodeWidth(n: nat): nat {
    if n == 0 then 0 else 2 * (n - 1) + 1
  }

  function Root(n: nat): nat
    requires n >= 1
  {
    TopOf(NodeWidth(n))
  }

  function Right(x: nat, n: nat): nat
    requires x % 2 == 1 && x < NodeWidth(n)
  {
    RightIn(x, NodeWidth(n))
  }

  /** Every node is a descendant of the root, and nothing in the walks below leaves 64 bits. */
  lemma WidthFits(n: nat)
    requires 1 <= n
    ensures Root(n) < NodeWidth(n)
    ensures Lo(Root(n)) == 0 && 2 * (n - 1) <= Hi(Root(n))
    ensures n <= MAX_TREE_SIZE ==> Hi(Root(n)) < TWO_64 - 2
  {
    hide *;
    WidthIs(n);
    TopSpans(NodeWidth(n));
  }

  lemma WidthIs(n: nat)
    requires 1 <= n
    ensures NodeWidth(n) == 2 * n - 1 && Root(n) == TopOf(NodeWidth(n))
    ensures n <= MAX_TREE_SIZE ==> 2 * NodeWidth(n) - 2 < TWO_64 - 2
  {
  }

  method RightChild(x: u64, n: u64) returns (r: u64)
    requires 1 <= n <= MAX_TREE_SIZE
    requires !IsLeaf(x) && x < NodeWidth(n)
    ensures r == Right(x, n)
  {
    hide First, Level, UpOf, LeftOf, RightOf, TopOf;
    WidthFits(n);
    if x != Root(n) { Nested(x, Root(n)); }
    RightOfIs(x);
    LowUnder(x, Root(n));
    r := GoRight(x);
    var w: u64 := NodeWidth(n);
    while r >= w
      invariant Lo(r) == x + 1 < w && r <= RightOf(x) && Level(r) < 63
      invariant Descend(r, w) == RightIn(x, w)
      decreases r
    {
      DescendStep(r, w);
      r := GoLeft(r);
    }
  }

  function ParentOf(x: nat, n: nat): nat
    requires n >= 1 && x < NodeWidth(n) && x != Root(n)
  {
    WidthFits(n);
    ParentIn(x, NodeWidth(n))
  }

  method Parent(x: u64, n: u64) returns (p: u64)
    requires 1 <= n <= MAX_TREE_SIZE
    requires x < NodeWidth(n) && x != Root(n)
    ensures p == ParentOf(x, n)
  {
    hide First, Level, UpOf, LeftOf, RightOf, TopOf;
    WidthFits(n);
    var width: u64 := NodeWidth(n);
    ghost var top := TopOf(width);
    ClimbStep(x, width);
    LowUnder(x, top);
    p := GoUp(x);
    while p >= width
      invariant Within(p, top)
      invariant Climb(p, width) == ParentIn(x, width)
      decreases Span(top) - Span(p)
    {
      ClimbStep(p, width);
      LowUnder(p, top);
      p := GoUp(p);
    }
  }

  /** The other child of the parent. */
  function SiblingIn(x: nat, n: nat): nat
    requires n >= 1 && x < NodeWidth(n) && x != Root(n)
  {
    var p := ParentOf(x, n);
    WidthFits(n);
    ParentInIs(x, NodeWidth(n));
    if x < p then Right(p, n) else LeftOf(p)
  }

  method Sibling(x: u64, n: u64) returns (s: u64)
    requires 1 <= n <= MAX_TREE_SIZE
    requires x < NodeWidth(n) && x != Root(n)
    ensures s == SiblingIn(x, n)
  {
    hide First, Level, UpOf, LeftOf, RightOf, TopOf;
    WidthFits(n);
    ParentInIs(x, NodeWidth(n));
    var p := Parent(x, n);
    if x < p {
      s := RightChild(p, n);
    } else {
      LeftOfIsLeft(p);
      LowUnder(p, Root(n));
      s := GoLeft(p);
    }
  }

  /** The two children of a parent partition its leaves below n. */
  lemma ChildrenPartition(p: nat, n: nat)
    requires n >= 1 && p % 2 == 1 && p < NodeWidth(n)
    ensures LeftOf(p) < p < Right(p, n) < NodeWidth(n)
    ensures First(LeftOf(p)) == First(p) && Last(LeftOf(p)) + 1 == First(Right(p, n))
    ensures Stop(Right(p, n), n) == Stop(p, n) && Last(LeftOf(p)) + 1 < n
    ensures Level(LeftOf(p)) + 1 == Level(p) && Level(Right(p, n)) < Level(p)
  {
    hide First, Level, LeftOf, RightOf, RightIn;
    LeftOfIs(p);
    LeftOfIsLeft(p);
    RightInIs(p, NodeWidth(n));
  }

  /** One past the last leaf below x in a tree with n leaves. */
  function Stop(x: nat, n: nat): nat {
    if Last(x) < n then Last(x) + 1 else n
  }

  // ---------------------------------------------------------------------------------------------
  // Lists of nodes that cover consecutive leaves.

  /** ids are nodes of the tree with n leaves whose subtrees cover leaves a up to e, left to right. */
  ghost predicate Tiles(ids: seq<nat>, a: nat, e: nat, n: nat)
    decreases |ids|
  {
    if ids == [] then a == e
    else
      First(ids[0]) == a && ids[0] < NodeWidth(n) && Tiles(ids[1..], Stop(ids[0], n), e, n)
  }

  lemma {:induction false} TilesAppend(xs: seq<nat>, ys: seq<nat>, a: nat, b: nat, c: nat, n: nat)
    requires Tiles(xs, a, b, n) && Tiles(ys, b, c, n)
    ensures Tiles(xs + ys, a, c, n)
    decreases |xs|
  {
    hide First, NodeWidth;
    if xs == [] {
      assert xs + ys == ys;
    } else {
      assert (xs + ys)[1..] == xs[1..] + ys;
      TilesAppend(xs[1..], ys, Stop(xs[0], n), b, c, n);
    }
  }

  lemma TilesOne(x: nat, n: nat)
    requires x < NodeWidth(n)
    ensures Tiles([x], First(x), Stop(x, n), n)
  {
    hide First;
    assert [x][1..] == [];
  }

  lemma {:induction false} TilesStartBelow(ids: seq<nat>, a: nat, e: nat, n: nat)
    requires Tiles(ids, a, e, n)
    ensures a <= e && (ids != [] ==> a < e && a < n)
    decreases |ids|
  {
    hide First;
    if ids != [] { TilesStartBelow(ids[1..], Stop(ids[0], n), e, n); }
  }

  /** Covering lists are strictly increasing. */
  lemma {:induction false} TilesIncrease(ids: seq<nat>, a: nat, e: nat, n: nat)
    requires Tiles(ids, a, e, n)
    ensures forall i, j | 0 <= i < j < |ids| :: ids[i] < ids[j]
    ensures forall i | 0 <= i < |ids| :: 2 * a <= ids[i]
    decreases |ids|
  {
    hide First;
    if ids != [] {
      TilesIncrease(ids[1..], Stop(ids[0], n), e, n);
      TilesStartBelow(ids[1..], Stop(ids[0], n), e, n);
      forall j | 1 <= j < |ids|
        ensures ids[0] < ids[j]
      {
        assert ids[j] == ids[1..][j - 1];
      }
    }
  }

  // ---------------------------------------------------------------------------------------------
  // What an honest log puts at each node.

  /** The leaves below x. */
  function Part(x: nat, log: seq<Hash>): (part: seq<Hash>)
    requires x < NodeWidth(|log|)
    ensures |part| >= 1
  {
    log[First(x)..Stop(x, |log|)]
  }

  function HonestHash(x: nat, log: seq<Hash>): Hash
    requires x < NodeWidth(|log|)
  {
    RootOf(Part(x, log))
  }

  lemma TreeOfLength(u: seq<NodeData>)
    requires |u| >= 1
    ensures |u| == 1 ==> TreeOf(u) == u[0]
    ensures |u| >= 2 ==> TreeOf(u).interior
  {
  }

  /** The interior flag the calculator derives from the level is the one the tree has. */
  lemma HonestNode(x: nat, log: seq<Hash>)
    requires x < NodeWidth(|log|)
    ensures TreeOf(Leaves(Part(x, log))) == NodeData(Level(x) != 0, HonestHash(x, log))
  {
    hide First, TreeOf, Level;
    LevelZero(x);
    TreeOfLength(Leaves(Part(x, log)));
  }

  lemma LevelZero(x: nat)
    ensures Level(x) == 0 <==> x % 2 == 0
    ensures Level(x) == 0 ==> 2 * First(x) == x && Last(x) == First(x)
  {
  }

  lemma {:induction false} FirstIsAligned(x: nat)
    ensures Aligned(First(x), Level(x))
  {
    if x % 2 == 1 {
      FirstIsAligned(x / 2);
      Halve(x, x / 2);
    }
  }

  datatype Item = Item(id: nat, value: Hash)

  function NodeOf(item: Item): NodeData {
    NodeData(Level(item.id) != 0, item.value)
  }

  /** Insert nodes one after another. */
  function InsertAll(chain: Chain, items: seq<Item>): Chain
    decreases |items|
  {
    if items == [] then chain
    else InsertAll(InsertAt(chain, Level(items[0].id), NodeOf(items[0])), items[1..])
  }

  ghost predicate AllNodes(ids: seq<nat>, n: nat) {
    forall i | 0 <= i < |ids| :: ids[i] < NodeWidth(n)
  }

  function Honest(ids: seq<nat>, log: seq<Hash>): (items: seq<Item>)
    requires AllNodes(ids, |log|)
    ensures |items| == |ids|
    ensures forall i | 0 <= i < |ids| :: items[i] == Item(ids[i], HonestHash(ids[i], log))
  {
    seq(|ids|, i requires 0 <= i < |ids| => Item(ids[i], HonestHash(ids[i], log)))
  }

  /** Every leaf covered lies below exactly one of the nodes. */
  lemma {:induction false} TileHolding(ids: seq<nat>, a: nat, e: nat, n: nat, leaf: nat) returns (i: nat)
    requires Tiles(ids, a, e, n) && a <= leaf < e <= n
    ensures i < |ids| && Within(2 * leaf, ids[i])
    ensures forall j | 0 <= j < |ids| && Within(2 * leaf, ids[j]) :: j == i
    decreases |ids|
  {
    hide First, NodeWidth;
    var rest, stop := ids[1..], Stop(ids[0], n);
    TilesStartBelow(rest, stop, e, n);
    if leaf < stop {
      i := 0;
      TilesStart(rest, stop, e, n);
      assert forall j | 0 < j < |ids| :: ids[j] == rest[j - 1];
    } else {
      var k := TileHolding(rest, stop, e, n, leaf);
      i := k + 1;
      assert forall j | 0 < j < |ids| :: ids[j] == rest[j - 1];
    }
  }

  lemma {:induction false} TilesStart(ids: seq<nat>, a: nat, e: nat, n: nat)
    requires Tiles(ids, a, e, n)
    ensures forall j | 0 <= j < |ids| :: a <= First(ids[j])
    decreases |ids|
  {
    hide First, NodeWidth;
    if ids != [] {
      TilesStart(ids[1..], Stop(ids[0], n), e, n);
      TilesStartBelow(ids[1..], Stop(ids[0], n), e, n);
      assert forall j | 0 < j < |ids| :: ids[j] == ids[1..][j - 1];
    }
  }

  lemma {:induction false} TilesAreNodes(ids: seq<nat>, a: nat, e: nat, n: nat)
    requires Tiles(ids, a, e, n)
    ensures AllNodes(ids, n)
    decreases |ids|
  {
    hide First, NodeWidth;
    if ids != [] {
      TilesAreNodes(ids[1..], Stop(ids[0], n), e, n);
      forall i | 0 <= i < |ids|
        ensures ids[i] < NodeWidth(n)
      {
        if i > 0 { assert ids[i] == ids[1..][i - 1]; }
      }
    }
  }

  /** Inserting one honest node: the leaves below it join those already represented. */
  lemma InsertHonest(chain: Chain, x: nat, log: seq<Hash>)
    requires x < NodeWidth(|log|)
    requires Represents(chain, Leaves(log[..First(x)]))
    ensures var c := InsertAt(chain, Level(x), NodeOf(Item(x, HonestHash(x, log))));
            && Fold(c, None) == Some(TreeOf(Leaves(log[..Stop(x, |log|)])))
            && (Last(x) < |log| ==> Represents(c, Leaves(log[..Last(x) + 1])))
  {
    hide First, Level, TreeOf, InsertAt, Fold, Represents, Aligned, Pow2, HonestHash;
    HonestNode(x, log);
    FirstIsAligned(x);
    LevelIsTrailingOnes(x);
    var u, block := Leaves(log[..First(x)]), Leaves(Part(x, log));
    assert u + block == Leaves(log[..Stop(x, |log|)]);
    InsertLast(chain, u, Level(x), block, TreeOf(block));
    if Last(x) < |log| {
      InsertAppends(chain, u, Level(x), block, TreeOf(block));
    }
  }

  lemma HonestTail(ids: seq<nat>, log: seq<Hash>)
    requires AllNodes(ids, |log|) && ids != []
    ensures AllNodes(ids[1..], |log|) && Honest(ids, log)[1..] == Honest(ids[1..], log)
    ensures Honest(ids, log)[0] == Item(ids[0], HonestHash(ids[0], log))
  {
    hide HonestHash, NodeWidth;
  }

  /** Full subtrees that cover leaves a up to m extend the chain to represent the first m leaves. */
  lemma {:induction false} InsertFull(chain: Chain, ids: seq<nat>, a: nat, m: nat, log: seq<Hash>)
    requires m <= |log| && AllNodes(ids, |log|)
    requires Tiles(ids, a, m, m) && forall i | 0 <= i < |ids| :: Last(ids[i]) < m
    requires a <= |log| && Represents(chain, Leaves(log[..a]))
    ensures Represents(InsertAll(chain, Honest(ids, log)), Leaves(log[..m]))
    decreases |ids|
  {
    hide First, Level, InsertAt, Represents, Leaves, Honest, HonestHash;
    if ids != [] {
      HonestTail(ids, log);
      InsertHonest(chain, ids[0], log);
      InsertFull(InsertAt(chain, Level(ids[0]), NodeOf(Item(ids[0], HonestHash(ids[0], log)))),
                 ids[1..], Last(ids[0]) + 1, m, log);
    }
  }

  /** Honest nodes that cover the rest of the log make the calculator return the Merkle root. */
  lemma {:induction false} InsertToEnd(chain: Chain, ids: seq<nat>, a: nat, log: seq<Hash>)
    requires AllNodes(ids, |log|) && ids != []
    requires Tiles(ids, a, |log|, |log|) && a <= |log| && Represents(chain, Leaves(log[..a]))
    ensures Fold(InsertAll(chain, Honest(ids, log)), None) == Some(TreeOf(Leaves(log)))
    decreases |ids|
  {
    hide First, Level, InsertAt, Represents, Leaves, Honest, HonestHash, Fold, TreeOf;
    HonestTail(ids, log);
    InsertHonest(chain, ids[0], log);
    var c := InsertAt(chain, Level(ids[0]), NodeOf(Item(ids[0], HonestHash(ids[0], log))));
    if |ids| == 1 {
      assert log[..|log|] == log;
    } else {
      TilesStartBelow(ids[1..], Stop(ids[0], |log|), |log|, |log|);
      InsertToEnd(c, ids[1..], Last(ids[0]) + 1, log);
    }
  }

  // ---------------------------------------------------------------------------------------------
  // Nothing else makes it return that root.

  ghost predicate SameIds(xs: seq<Item>, ys: seq<Item>) {
    |xs| == |ys| && forall i | 0 <= i < |xs| :: xs[i].id == ys[i].id
  }

  /** Inserting at the same nodes with equal final roots means equal chains and equal values. */
  lemma {:induction false} InsertAllIsInjective(a: Chain, b: Chain, xs: seq<Item>, ys: seq<Item>)
    requires SameShape(a, b) && SameIds(xs, ys)
    requires Fold(InsertAll(a, xs), None).Some? && Fold(InsertAll(b, ys), None).Some?
    requires Fold(InsertAll(a, xs), None).value.value == Fold(InsertAll(b, ys), None).value.value
    ensures a == b && xs == ys
    decreases |xs|
  {
    hide Fold, InsertAt, SameShape, Level;
    if xs == [] {
      SameShapeNone();
      FoldIsInjective(a, b, None, None);
    } else {
      var l, x, y := Level(xs[0].id), NodeOf(xs[0]), NodeOf(ys[0]);
      InsertKeepsShape(a, b, l, x, y);
      InsertAllIsInjective(InsertAt(a, l, x), InsertAt(b, l, y), xs[1..], ys[1..]);
      InsertIsInjective(a, b, l, x, y);
      assert xs == [xs[0]] + xs[1..] && ys == [ys[0]] + ys[1..];
    }
  }

  lemma SameShapeNone()
    ensures SameShape([None], [None]) && SameShape([], [])
  {
  }
}
