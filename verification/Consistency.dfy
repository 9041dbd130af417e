/** Consistency proofs between two sizes of the log (section 2.1.2 of RFC 6962). */
module Consistency {
  import opened Bits
  import opened Geometry
  import opened LeftBalanced
  import opened BoundedTree
  import opened Merkle
  import opened LogTree

  predicate IsFullSubtree(x: nat, n: nat)
    requires n >= 1
  {
    x + Pow2(Level(x)) - 1 <= 2 * (n - 1)
  }

  /** A node is full when its last leaf exists. */
  lemma FullMeansLast(x: nat, n: nat)
    requires n >= 1
    ensures IsFullSubtree(x, n) <==> Last(x) < n
    ensures !IsFullSubtree(x, n) && x < NodeWidth(n) ==> x % 2 == 1
  {
    hide First, Level, Pow2;
    LevelIsTrailingOnes(x);
    LevelZero(x);
  }

  /** The last position looked for fits in a word. */
  lemma FullnessFits(x: nat, n: nat)
    requires 1 <= n <= MAX_TREE_SIZE && x < NodeWidth(n)
    ensures Level(x) < 63 && x + Pow2(Level(x)) < TWO_64
  {
    hide First, Level, Pow2, Root;
    WidthFits(n);
    LowUnder(x, Root(n));
    LevelIsTrailingOnes(x);
  }

  /** The full subtrees that make up x, left to right. */
  function FullSubtrees(x: nat, n: nat): seq<nat>
    requires n >= 1 && x < NodeWidth(n)
    decreases Level(x)
  {
    if IsFullSubtree(x, n) then [x]
    else
      FullMeansLast(x, n);
      ChildrenPartition(x, n);
      [LeftOf(x)] + FullSubtrees(Right(x, n), n)
  }

  lemma FullSubtreesStep(x: nat, n: nat)
    requires n >= 1 && x < NodeWidth(n)
    ensures IsFullSubtree(x, n) ==> FullSubtrees(x, n) == [x]
    ensures !IsFullSubtree(x, n) ==>
              && x % 2 == 1 && Right(x, n) < NodeWidth(n) && Level(Right(x, n)) < Level(x)
              && FullSubtrees(x, n) == [LeftOf(x)] + FullSubtrees(Right(x, n), n)
  {
    hide First, Level, LeftOf, Right, NodeWidth, IsFullSubtree;
    FullMeansLast(x, n);
    if !IsFullSubtree(x, n) { ChildrenPartition(x, n); }
  }

  /** The iterator: left children until what remains is full. */
  method CollectFullSubtrees(x: u64, n: u64) returns (out: seq<u64>)
    requires 1 <= n <= MAX_TREE_SIZE && x < NodeWidth(n)
    ensures out == FullSubtrees(x, n)
  {
    hide First, Level, LeftOf, Right, Pow2, Root, FullSubtrees, TrailingOnes, NodeWidth;
    WidthFits(n);
    WidthIs(n);
    out := [];
    var c: u64 := x;
    var rightmost: u64 := 2 * (n - 1);
    while true
      invariant c < NodeWidth(n) && out + FullSubtrees(c, n) == FullSubtrees(x, n)
      decreases Level(c)
    {
      FullSubtreesStep(c, n);
      FullnessFits(c, n);
      LevelIsTrailingOnes(c);
      var width: u64 := Pow2(TrailingOnes(c));
      var expected: u64 := c + width - 1;
      if expected <= rightmost {
        return out + [c];
      }
      LeftOfIsBelow(c);
      var l := GoLeft(c);
      out := out + [l];
      c := RightChild(c, n);
    }
  }

  function Shift(ids: seq<nat>, d: nat): (r: seq<nat>)
    ensures |r| == |ids|
    ensures forall i | 0 <= i < |ids| :: r[i] == ids[i] + d
  {
    seq(|ids|, i requires 0 <= i < |ids| => ids[i] + d)
  }

  lemma RootFacts(n: nat)
    requires n >= 2
    ensures Root(n) == 2 * Split(n) - 1 && Root(n) % 2 == 1 && Root(n) < NodeWidth(n)
    ensures First(Root(n)) == 0 && Last(Root(n)) == 2 * Split(n) - 1
    ensures LeftOf(Root(n)) == Split(n) - 1
  {
    hide *;
    var e := SplitIsPower(n);
    Log2Double(n - 1);
    Log2Bounds(n - 1);
    PowerBelowIsUnique(e, Log2(n - 1), n);
    RootIsMask(n, e);
    MaskSpans(e + 1);
    MaskSpans(e);
    FirstLast(Root(n));
    LeftOfIs(Root(n));
    FirstLast(LeftOf(Root(n)));
  }

  lemma Log2Double(n: nat)
    requires n >= 1
    ensures Log2(2 * n + 1) == 1 + Log2(n)
  {
    assert (2 * n + 1) / 2 == n;
  }

  lemma RootIsMask(n: nat, e: nat)
    requires n >= 2 && Log2(2 * (n - 1) + 1) == 1 + e
    ensures Root(n) == Pow2(e + 1) - 1 == 2 * Pow2(e) - 1
    ensures Pow2(e) < n ==> Root(n) < NodeWidth(n)
  {
  }

  lemma FirstLast(x: nat)
    ensures Lo(x) == 2 * First(x) && Hi(x) == 2 * Last(x) && First(x) + Last(x) == x
  {
  }

  /** The node ids of a consistency proof between m and n. */
  function SubProof(m: nat, n: nat, b: bool): seq<nat>
    requires 1 <= m <= n
    decreases n
  {
    if m == n then
      if b then [] else [Root(m)]
    else
      RootFacts(n);
      var k := Split(n);
      if m <= k then SubProof(m, k, b) + [Right(Root(n), n)]
      else [LeftOf(Root(n))] + Shift(SubProof(m - k, n - k, false), 2 * k)
  }

  // ---------------------------------------------------------------------------------------------
  // Moving a subtree sideways by a power of two.

  lemma {:induction false} ShiftNode(x: nat, h: nat)
    requires x + 2 <= 2 * Pow2(h)
    ensures First(x + 2 * Pow2(h)) == First(x) + Pow2(h)
    ensures Level(x + 2 * Pow2(h)) == Level(x)
  {
    var k := Pow2(h);
    if x % 2 == 0 {
      var e := x / 2;
      assert x == 2 * e && x + 2 * k == 2 * (e + k);
      hide *;
      LeafAt(e);
      LeafAt(e + k);
    } else {
      var y := x / 2;
      assert x == 2 * y + 1;
      assert h >= 1;
      assert k == 2 * Pow2(h - 1);
      hide *;
      Halve(x, y);
      Halve(x + 2 * k, y + k);
      ShiftNode(y, h - 1);
    }
  }

  lemma {:induction false} ShiftTiles(ids: seq<nat>, a: nat, e: nat, n: nat, h: nat)
    requires Tiles(ids, a, e, n) && 1 <= n <= Pow2(h)
    ensures Tiles(Shift(ids, 2 * Pow2(h)), a + Pow2(h), e + Pow2(h), n + Pow2(h))
    decreases |ids|
  {
    hide First, Pow2, Shift;
    if ids != [] {
      ShiftTiles(ids[1..], Stop(ids[0], n), e, n, h);
      ShiftNode(ids[0], h);
      assert Shift(ids, 2 * Pow2(h))[1..] == Shift(ids[1..], 2 * Pow2(h));
    }
  }

  /** Below a power of two every node is full, so a cover in the smaller tree is one in the larger. */
  lemma {:induction false} WidenTiles(ids: seq<nat>, a: nat, e: nat, h: nat, n: nat)
    requires Tiles(ids, a, e, Pow2(h)) && Pow2(h) <= n
    ensures Tiles(ids, a, e, n)
    decreases |ids|
  {
    hide First, Pow2;
    if ids != [] {
      BelowMask(ids[0], h);
      WidenTiles(ids[1..], Stop(ids[0], n), e, h, n);
    }
  }

  lemma BelowMask(x: nat, h: nat)
    requires x + 2 <= 2 * Pow2(h)
    ensures Last(x) < Pow2(h)
  {
    hide First, Pow2, Level;
    MaskSpans(h);
    if x != Pow2(h) - 1 { Nested(x, Pow2(h) - 1); }
  }

  // ---------------------------------------------------------------------------------------------
  // The shape of the ids.

  /** The full subtrees covering the first m leaves. */
  function Decomposition(m: nat): seq<nat>
    requires m >= 1
  {
    WidthFits(m);
    FullSubtrees(Root(m), m)
  }

  lemma DecompositionIs(m: nat)
    requires m >= 1
    ensures Root(m) < NodeWidth(m) && Decomposition(m) == FullSubtrees(Root(m), m)
  {
    WidthFits(m);
  }

  lemma {:induction false} FullSubtreesTile(x: nat, n: nat)
    requires n >= 1 && x < NodeWidth(n)
    ensures Tiles(FullSubtrees(x, n), First(x), Stop(x, n), n)
    ensures forall i | 0 <= i < |FullSubtrees(x, n)| :: Last(FullSubtrees(x, n)[i]) < n
    decreases Level(x)
  {
    hide First, Level, LeftOf, Right, IsFullSubtree;
    FullMeansLast(x, n);
    if IsFullSubtree(x, n) {
      TilesOne(x, n);
    } else {
      ChildrenPartition(x, n);
      FullSubtreesTile(Right(x, n), n);
      TilesOne(LeftOf(x), n);
      TilesAppend([LeftOf(x)], FullSubtrees(Right(x, n), n), First(x), Last(LeftOf(x)) + 1, Stop(x, n), n);
    }
  }

  /** A node is determined by the leaves below it. */
  lemma NodeByLeaves(x: nat, y: nat, n: nat)
    requires x < NodeWidth(n) && y < NodeWidth(n)
    requires First(x) == First(y) && Stop(x, n) == Stop(y, n)
    ensures x == y
  {
    hide First, Level;
    NestedOrDisjoint(x, y);
    if Within(x, y) && x != y {
      Nested(x, y);
    } else if Within(y, x) && x != y {
      Nested(y, x);
    }
  }

  lemma {:induction false} FullSubtreesShift(x: nat, n: nat, h: nat)
    requires n >= 1 && x < NodeWidth(n) && n <= Pow2(h)
    ensures FullSubtrees(x + 2 * Pow2(h), n + Pow2(h)) == Shift(FullSubtrees(x, n), 2 * Pow2(h))
    decreases Level(x)
  {
    hide First, Level, LeftOf, Right, IsFullSubtree, Pow2;
    var d := 2 * Pow2(h);
    ShiftNode(x, h);
    FullMeansLast(x, n);
    FullMeansLast(x + d, n + Pow2(h));
    if !IsFullSubtree(x, n) {
      ChildrenPartition(x, n);
      ChildrenPartition(x + d, n + Pow2(h));
      LeftShifts(x, n, h);
      RightShifts(x, n, h);
      FullSubtreesShift(Right(x, n), n, h);
    }
  }

  lemma LeftShifts(x: nat, n: nat, h: nat)
    requires n >= 1 && x % 2 == 1 && x < NodeWidth(n) && n <= Pow2(h) && (x + 2 * Pow2(h)) % 2 == 1
    ensures LeftOf(x + 2 * Pow2(h)) == LeftOf(x) + 2 * Pow2(h)
  {
    hide First, Level, LeftOf, Pow2;
    var d := 2 * Pow2(h);
    ShiftNode(x, h);
    LeftOfIs(x);
    LeftOfIs(x + d);
    FirstLast(LeftOf(x));
    FirstLast(LeftOf(x + d));
  }

  lemma RightShifts(x: nat, n: nat, h: nat)
    requires n >= 1 && x % 2 == 1 && x < NodeWidth(n) && n <= Pow2(h) && (x + 2 * Pow2(h)) % 2 == 1
    ensures Right(x + 2 * Pow2(h), n + Pow2(h)) == Right(x, n) + 2 * Pow2(h)
  {
    hide First, Level, LeftOf, Right, Pow2;
    var d, n' := 2 * Pow2(h), n + Pow2(h);
    ShiftNode(x, h);
    RightFacts(x, n);
    RightFacts(x + d, n');
    ShiftNode(Right(x, n), h);
    NodeByLeaves(Right(x + d, n'), Right(x, n) + d, n');
  }

  lemma RightFacts(x: nat, n: nat)
    requires n >= 1 && x % 2 == 1 && x < NodeWidth(n)
    ensures Right(x, n) < NodeWidth(n) && 2 * First(Right(x, n)) == x + 1
    ensures Stop(Right(x, n), n) == Stop(x, n)
  {
    hide First, Level, LeftOf, Right;
    LeftOfIs(x);
    ChildrenPartition(x, n);
  }

  /** The right child of the root over m leaves is the root over the leaves past the split, moved. */
  lemma RightOfRoot(m: nat)
    requires m >= 2
    ensures Root(m) < NodeWidth(m) && Root(m) % 2 == 1
    ensures Right(Root(m), m) == Root(m - Split(m)) + 2 * Split(m)
  {
    hide First, Level, LeftOf, Right, Pow2, Split, Root;
    var k := Split(m);
    var h := SplitIsPower(m);
    RootFacts(m);
    ChildrenPartition(Root(m), m);
    RootSpans(m - k);
    ShiftNode(Root(m - k), h);
    NodeByLeaves(Right(Root(m), m), Root(m - k) + 2 * k, m);
  }

  lemma RootSpans(m: nat)
    requires m >= 1
    ensures First(Root(m)) == 0 && Stop(Root(m), m) == m && Root(m) < NodeWidth(m)
  {
    hide First, Root;
    WidthFits(m);
  }

  lemma DecompositionSplits(m: nat)
    requires m >= 2 && m < 2 * Split(m)
    ensures Decomposition(m) == [Split(m) - 1] + Shift(Decomposition(m - Split(m)), 2 * Split(m))
  {
    hide First, Level, LeftOf, Right, Pow2, Split, Root, IsFullSubtree;
    var k := Split(m);
    var h := SplitIsPower(m);
    RootFacts(m);
    FullMeansLast(Root(m), m);
    RightOfRoot(m);
    RootSpans(m - k);
    FullSubtreesShift(Root(m - k), m - k, h);
  }

  /** The proof nodes right of leaf m. */
  function Rest(m: nat, n: nat): seq<nat>
    requires 1 <= m <= n
    decreases n
  {
    if m == n then []
    else
      RootFacts(n);
      var k := Split(n);
      if m <= k then Rest(m, k) + [Right(Root(n), n)]
      else Shift(Rest(m - k, n - k), 2 * k)
  }

  /** The root over m leaves is full: m is a power of two. */
  predicate FullRoot(m: nat)
    requires m >= 1
  {
    Last(Root(m)) < m
  }

  lemma TilesNone(a: nat, n: nat)
    ensures Tiles([], a, a, n)
  {
  }

  lemma {:induction false} RestTiles(m: nat, n: nat)
    requires 1 <= m <= n
    ensures Tiles(Rest(m, n), m, n, n)
    decreases n
  {
    hide First, Level, LeftOf, Right, Pow2, Split, Root, Tiles;
    if m == n {
      TilesNone(m, n);
    } else {
      var k := Split(n);
      var h := SplitIsPower(n);
      RootFacts(n);
      ChildrenPartition(Root(n), n);
      if m <= k {
        RestTiles(m, k);
        WidenTiles(Rest(m, k), m, k, h, n);
        TilesOne(Right(Root(n), n), n);
        TilesAppend(Rest(m, k), [Right(Root(n), n)], m, k, n, n);
      } else {
        RestTiles(m - k, n - k);
        ShiftTiles(Rest(m - k, n - k), m - k, n - k, n - k, h);
      }
    }
  }

  lemma FullRootIsPower(n: nat)
    requires n >= 2
    ensures FullRoot(n) <==> n == 2 * Split(n)
    ensures FullRoot(Split(n))
  {
    hide First, Level, Split, Root, Pow2;
    RootFacts(n);
    var h := SplitIsPower(n);
    RootSpans(Split(n));
    BelowMask(Root(Split(n)), h);
  }

  lemma FullDecomposition(m: nat)
    requires m >= 1 && FullRoot(m)
    ensures Decomposition(m) == [Root(m)]
  {
    hide First, Level, Root, IsFullSubtree;
    WidthFits(m);
    FullMeansLast(Root(m), m);
  }

  lemma ShiftConcat(xs: seq<nat>, ys: seq<nat>, d: nat)
    ensures Shift(xs + ys, d) == Shift(xs, d) + Shift(ys, d)
  {
  }

  lemma SplitIsStable(m: nat, n: nat)
    requires n >= 2 && Split(n) < m <= n
    ensures m >= 2 && Split(m) == Split(n)
  {
    hide Split, Pow2;
    var a := SplitIsPower(m);
    var b := SplitIsPower(n);
    PowerBelowIsUnique(a, b, m);
  }

  lemma ShapeLeft(m: nat, n: nat, b: bool) returns (right: nat)
    requires 1 <= m <= n && n >= 2 && m <= Split(n) < n
    ensures SubProof(m, n, b) == SubProof(m, Split(n), b) + [right]
    ensures Rest(m, n) == Rest(m, Split(n)) + [right]
  {
    hide First, Level, LeftOf, Right, Split, Root, Shift;
    RootFacts(n);
    right := Right(Root(n), n);
  }

  lemma ShapeRight(m: nat, n: nat, b: bool)
    requires n >= 2 && Split(n) < m < n
    ensures SubProof(m, n, b) == [Split(n) - 1] + Shift(SubProof(m - Split(n), n - Split(n), false), 2 * Split(n))
    ensures Rest(m, n) == Shift(Rest(m - Split(n), n - Split(n)), 2 * Split(n))
  {
    hide First, Level, LeftOf, Right, Split, Root, Shift;
    RootFacts(n);
  }

  /** What a proof starts with. */
  function OldPart(m: nat, b: bool): seq<nat>
    requires m >= 1
  {
    if b && FullRoot(m) then [] else Decomposition(m)
  }

  lemma FromLeft(m: nat, n: nat, b: bool)
    requires 1 <= m <= n && n >= 2 && m <= Split(n) < n
    requires SubProof(m, Split(n), b) == OldPart(m, b) + Rest(m, Split(n))
    ensures SubProof(m, n, b) == OldPart(m, b) + Rest(m, n)
  {
    hide *;
    var right := ShapeLeft(m, n, b);
    Regroup(OldPart(m, b), Rest(m, Split(n)), [right]);
  }

  lemma Regroup(a: seq<nat>, b: seq<nat>, c: seq<nat>)
    ensures (a + b) + c == a + (b + c)
  {
  }

  lemma FromRight(m: nat, n: nat, b: bool)
    requires n >= 2 && Split(n) < m < n
    requires SubProof(m - Split(n), n - Split(n), false) == Decomposition(m - Split(n)) + Rest(m - Split(n), n - Split(n))
    ensures SubProof(m, n, b) == OldPart(m, b) + Rest(m, n)
  {
    hide *;
    var k := Split(n);
    ShapeRight(m, n, b);
    SplitIsStable(m, n);
    NotFull(m, n, b);
    DecompositionSplits(m);
    ShiftConcat(Decomposition(m - k), Rest(m - k, n - k), 2 * k);
    Regroup([k - 1], Shift(Decomposition(m - k), 2 * k), Shift(Rest(m - k, n - k), 2 * k));
  }

  /** Past the split and short of the end the old tree is not full. */
  lemma NotFull(m: nat, n: nat, b: bool)
    requires n >= 2 && Split(n) < m < n
    ensures m >= 2 && m < 2 * Split(m) && OldPart(m, b) == Decomposition(m)
  {
    hide Split, FullRoot, Decomposition;
    SplitIsStable(m, n);
    FullRootIsPower(m);
  }

  /** A proof starts with the full subtrees of the old tree, unless that tree is itself one full
  subtree whose root the client already holds; the rest covers the new leaves. */
  lemma {:induction false} SubProofShape(m: nat, n: nat, b: bool)
    requires 1 <= m <= n && (m < n || FullRoot(m))
    ensures SubProof(m, n, b) == (if b && FullRoot(m) then [] else Decomposition(m)) + Rest(m, n)
    decreases n
  {
    if m == n {
      hide First, Level, LeftOf, Right, Split, Root, Decomposition, FullRoot, Shift;
      FullDecomposition(m);
    } else {
      hide SubProof, Rest, Decomposition, FullRoot, Split;
      FullRootIsPower(n);
      if m <= Split(n) {
        SubProofShape(m, Split(n), b);
        FromLeft(m, n, b);
      } else {
        SubProofShape(m - Split(n), n - Split(n), false);
        FromRight(m, n, b);
      }
    }
  }
}
