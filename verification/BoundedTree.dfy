/** The left-balanced tree cut off at a width: the nodes numbered below w.

The log tree with n leaves is this tree at width 2n - 1; the implicit search tree over n entries is
this tree at width n. */
module BoundedTree {
  import opened Bits
  import opened Geometry

  /** The root: the node with the most trailing ones below w. */
  function TopOf(w: nat): nat
    requires w >= 1
  {
    Pow2(Log2(w)) - 1
  }

  lemma {:induction false} MaskSpans(k: nat)
    ensures Lo(Pow2(k) - 1) == 0 && Hi(Pow2(k) - 1) == 2 * Pow2(k) - 2
    ensures Level(Pow2(k) - 1) == k
  {
    hide First, Level;
    if k > 0 {
      MaskSpans(k - 1);
      Halve(Pow2(k) - 1, Pow2(k - 1) - 1);
    } else {
      LeafAt(0);
    }
  }

  /** Every node below w lies under the root. */
  lemma TopSpans(w: nat)
    requires w >= 1
    ensures TopOf(w) < w
    ensures Lo(TopOf(w)) == 0 && w - 1 <= Hi(TopOf(w)) <= 2 * w - 2
    ensures Level(TopOf(w)) == Log2(w)
  {
    Log2Bounds(w);
    MaskSpans(Log2(w));
  }

  // ---------------------------------------------------------------------------------------------
  // Upwards.

  /** The lowest ancestor of p, p included, that is numbered below w. */
  function Climb(p: nat, w: nat): nat
    requires w >= 1 && Within(p, TopOf(w))
    decreases Span(TopOf(w)) - Span(p)
  {
    if p < w then p
    else
      TopSpans(w);
      ClimbStep(p, w);
      Climb(UpOf(p), w)
  }

  lemma ClimbStep(p: nat, w: nat)
    requires w >= 1 && Within(p, TopOf(w)) && p != TopOf(w)
    ensures Within(UpOf(p), TopOf(w))
    ensures Span(p) < Span(UpOf(p)) <= Span(TopOf(w))
    ensures Level(p) < Level(UpOf(p)) <= Level(TopOf(w))
  {
    hide First, UpOf, Level, TopOf;
    TopSpans(w);
    UpIsLeast(p, TopOf(w));
    UpOfIs(p);
    if UpOf(p) != TopOf(w) { Nested(UpOf(p), TopOf(w)); }
  }

  lemma {:induction false} ClimbIsAncestor(p: nat, w: nat)
    requires w >= 1 && Within(p, TopOf(w))
    ensures Climb(p, w) < w && Within(p, Climb(p, w))
    ensures Level(p) <= Level(Climb(p, w)) <= Level(TopOf(w))
    decreases Span(TopOf(w)) - Span(p)
  {
    hide First, UpOf, Level, TopOf;
    TopSpans(w);
    if p < w {
      if p != TopOf(w) { Nested(p, TopOf(w)); }
    } else {
      ClimbStep(p, w);
      ClimbIsAncestor(UpOf(p), w);
      UpOfIs(p);
      WithinTransitive(p, UpOf(p), Climb(p, w));
    }
  }

  lemma {:induction false} ClimbIsLeast(p: nat, w: nat, a: nat)
    requires w >= 1 && Within(p, TopOf(w))
    requires a < w && Within(p, a)
    ensures Within(Climb(p, w), a)
    decreases Span(TopOf(w)) - Span(p)
  {
    hide First, UpOf, Level, TopOf;
    if p >= w {
      TopSpans(w);
      ClimbStep(p, w);
      UpIsLeast(p, a);
      ClimbIsLeast(UpOf(p), w, a);
    }
  }

  /** The parent of x in the tree of width w: walk up until back below w. */
  function ParentIn(x: nat, w: nat): nat
    requires w >= 1 && Within(x, TopOf(w)) && x != TopOf(w)
  {
    ClimbStep(x, w);
    Climb(UpOf(x), w)
  }

  /** The parent is the least proper ancestor below w. */
  lemma ParentInIs(x: nat, w: nat)
    requires w >= 1 && Within(x, TopOf(w)) && x != TopOf(w)
    ensures ParentIn(x, w) < w && ParentIn(x, w) % 2 == 1
    ensures Within(x, ParentIn(x, w)) && x != ParentIn(x, w)
    ensures Level(x) < Level(ParentIn(x, w)) <= Level(TopOf(w))
    ensures forall a: nat | a < w && Within(x, a) && a != x :: Within(ParentIn(x, w), a)
  {
    hide First, UpOf, Level, TopOf, Climb;
    ClimbStep(x, w);
    UpOfIs(x);
    ClimbIsAncestor(UpOf(x), w);
    WithinTransitive(x, UpOf(x), ParentIn(x, w));
    forall a: nat | a < w && Within(x, a) && a != x
      ensures Within(ParentIn(x, w), a)
    {
      UpIsLeast(x, a);
      ClimbIsLeast(UpOf(x), w, a);
    }
    assert Level(x) < Level(ParentIn(x, w));
    Nested(x, ParentIn(x, w));
  }

  // ---------------------------------------------------------------------------------------------
  // Downwards.

  /** The highest node on the left spine of r that is numbered below w. */
  function Descend(r: nat, w: nat): nat
    requires Lo(r) < w
    decreases r
  {
    if r < w then r
    else
      DescendStep(r, w);
      Descend(LeftOf(r), w)
  }

  lemma DescendStep(r: nat, w: nat)
    requires Lo(r) < w <= r
    ensures r % 2 == 1 && LeftOf(r) < r && Lo(LeftOf(r)) == Lo(r)
    ensures Hi(LeftOf(r)) == r - 1 && Level(LeftOf(r)) < Level(r)
  {
    hide First, Level, LeftOf;
    if r % 2 == 0 { Leaf(r); }
    LeftOfIs(r);
    LeftOfIsLeft(r);
  }

  lemma LeftOfIsLeft(x: nat)
    requires x % 2 == 1
    ensures LeftOf(x) < x
  {
  }

  lemma {:induction false} DescendIs(r: nat, w: nat)
    requires Lo(r) < w
    ensures Descend(r, w) < w && Lo(Descend(r, w)) == Lo(r)
    ensures w - 1 <= Hi(Descend(r, w)) <= Hi(r) || Descend(r, w) == r
    ensures Level(Descend(r, w)) <= Level(r)
    decreases r
  {
    hide First, Level, LeftOf;
    if r >= w {
      DescendStep(r, w);
      DescendIs(LeftOf(r), w);
    }
  }

  /** The right child of x in the tree of width w: step right, then left until back below w. */
  function RightIn(x: nat, w: nat): nat
    requires x % 2 == 1 && x + 1 < w
  {
    RightOfIs(x);
    Descend(RightOf(x), w)
  }

  lemma RightInIs(x: nat, w: nat)
    requires x % 2 == 1 && x + 1 < w
    ensures RightIn(x, w) < w && Lo(RightIn(x, w)) == x + 1
    ensures Hi(RightIn(x, w)) == Hi(x) || w - 1 <= Hi(RightIn(x, w)) <= Hi(x)
    ensures Level(RightIn(x, w)) < Level(x)
    ensures Within(RightIn(x, w), x) && x < RightIn(x, w)
  {
    hide First, Level, RightOf, Descend;
    RightOfIs(x);
    DescendIs(RightOf(x), w);
  }
}
