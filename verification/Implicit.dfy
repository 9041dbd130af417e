/** The implicit binary search tree over the log entries start .. n. */
module Implicit {
  import opened Wrappers
  import opened Bits
  import opened Geometry
  import opened LeftBalanced
  import opened BoundedTree

  // ---------------------------------------------------------------------------------------------
  // Moving into a window.

  /** The subtree of x meets the window [start, n). */
  predicate Meets(x: nat, start: nat, n: nat) {
    start < n && Lo(x) < n && start <= Hi(x)
  }

  /** Step towards the window until inside. */
  function MoveWithin(x: nat, start: nat, n: nat): nat
    requires Meets(x, start, n)
    decreases Level(x)
  {
    if start <= x < n then x
    else
      MoveStep(x, start, n);
      if x < start then MoveWithin(RightOf(x), start, n) else MoveWithin(LeftOf(x), start, n)
  }

  /** Outside the window x is never a leaf, and the child on the window's side still meets it. */
  lemma MoveStep(x: nat, start: nat, n: nat)
    requires Meets(x, start, n) && !(start <= x < n)
    ensures x % 2 == 1
    ensures x < start ==> Meets(RightOf(x), start, n) && Level(RightOf(x)) < Level(x)
    ensures x >= n ==> Meets(LeftOf(x), start, n) && Level(LeftOf(x)) < Level(x)
  {
    hide First, Level, LeftOf, RightOf;
    if x % 2 == 0 { Leaf(x); }
    LeftOfIs(x);
    RightOfIs(x);
  }

  /** Step towards the window; a leaf outside the window has no child to step to, and the source panics.
  From a node whose subtree meets the window that does not happen; with an empty window it always does. */
  method MoveInto(from: u64, start: u64, n: u64) returns (r: Option<u64>)
    requires Hi(from) < TWO_64 - 2
    ensures Meets(from, start, n) ==> r == Some(MoveWithin(from, start, n))
    ensures start >= n ==> r == None
  {
    hide First, Level, LeftOf, RightOf, Meets, MoveWithin;
    var x: u64 := from;
    while !(start <= x < n)
      invariant Hi(x) < TWO_64 - 2
      invariant Meets(from, start, n) ==> Meets(x, start, n) && MoveWithin(x, start, n) == MoveWithin(from, start, n)
      decreases Level(x)
    {
      if Meets(from, start, n) { MoveStep(x, start, n); MoveWithinStep(x, start, n); }
      if IsLeaf(x) {
        return None;
      }
      LeftOfIs(x);
      RightOfIs(x);
      LowLevel(x);
      if x < start {
        x := GoRight(x);
      } else {
        x := GoLeft(x);
      }
    }
    if Meets(from, start, n) { MoveWithinStep(x, start, n); }
    return Some(x);
  }

  lemma MoveWithinStep(x: nat, start: nat, n: nat)
    requires Meets(x, start, n)
    ensures start <= x < n ==> MoveWithin(x, start, n) == x
    ensures x < start ==> x % 2 == 1 && Meets(RightOf(x), start, n) && MoveWithin(x, start, n) == MoveWithin(RightOf(x), start, n)
    ensures n <= x ==> x % 2 == 1 && Meets(LeftOf(x), start, n) && MoveWithin(x, start, n) == MoveWithin(LeftOf(x), start, n)
  {
    hide First, Level, LeftOf, RightOf, Meets;
    if !(start <= x < n) { MoveStep(x, start, n); }
    MeetsWindow(x, start, n);
  }

  lemma MeetsWindow(x: nat, start: nat, n: nat)
    requires Meets(x, start, n)
    ensures start < n
  {
  }

  lemma {:induction false} MoveWithinIs(x: nat, start: nat, n: nat)
    requires Meets(x, start, n)
    ensures start <= MoveWithin(x, start, n) < n
    ensures Level(MoveWithin(x, start, n)) <= Level(x)
    ensures Lo(x) <= Lo(MoveWithin(x, start, n)) && Hi(MoveWithin(x, start, n)) <= Hi(x)
    ensures forall y | start <= y < n && Within(y, x) :: Within(y, MoveWithin(x, start, n))
    decreases Level(x)
  {
    hide First, Level, LeftOf, RightOf;
    if !(start <= x < n) {
      MoveStep(x, start, n);
      LeftOfIs(x);
      RightOfIs(x);
      if x < start {
        MoveWithinIs(RightOf(x), start, n);
      } else {
        MoveWithinIs(LeftOf(x), start, n);
      }
    }
  }

  // ---------------------------------------------------------------------------------------------
  // Roots and children.

  /** r lies in [lo, hi) and is an ancestor of everything in it. */
  ghost predicate IsPeak(r: nat, lo: nat, hi: nat) {
    lo <= r < hi && forall y | lo <= y < hi :: Within(y, r)
  }

  lemma PeakIsUnique(r: nat, s: nat, lo: nat, hi: nat)
    requires IsPeak(r, lo, hi) && IsPeak(s, lo, hi)
    ensures r == s
  {
    hide First, Level;
    if r != s {
      Nested(r, s);
      Nested(s, r);
    }
  }

  /** The root of the search over [start, n). */
  function SearchRoot(start: nat, n: nat): nat
    requires start < n
  {
    TopSpans(n);
    MoveWithin(TopOf(n), start, n)
  }

  /** The root is the common ancestor of the whole window. */
  lemma RootIsPeak(start: nat, n: nat)
    requires start < n
    ensures IsPeak(SearchRoot(start, n), start, n)
    ensures Level(SearchRoot(start, n)) <= Log2(n)
  {
    hide First, Level, TopOf, MoveWithin, Log2;
    TopSpans(n);
    MoveWithinIs(TopOf(n), start, n);
  }

  function SearchLeft(x: nat, start: nat, n: nat): nat
    requires start < x < n && x % 2 == 1
  {
    LeftOfIs(x);
    MoveWithin(LeftOf(x), start, n)
  }

  function SearchRight(x: nat, start: nat, n: nat): nat
    requires start <= x < n - 1 && x % 2 == 1
  {
    RightOfIs(x);
    MoveWithin(RightOf(x), start, n)
  }

  /** x is the root of the part [lo, hi) of the search tree over [start, n): the part ends where the
  subtree of x ends, or where the window does. */
  ghost predicate Region(x: nat, lo: nat, hi: nat, start: nat, n: nat) {
    && IsPeak(x, lo, hi) && start <= lo && hi <= n
    && (lo == start || lo == Lo(x)) && (hi == n || hi == Hi(x) + 1)
  }

  lemma RegionOfRoot(start: nat, n: nat)
    requires start < n
    ensures Region(SearchRoot(start, n), start, n, start, n)
  {
    hide SearchRoot, IsPeak;
    RootIsPeak(start, n);
  }

  /** Inside a region only leaves have no children. */
  lemma RegionInterior(x: nat, lo: nat, hi: nat, start: nat, n: nat)
    requires Region(x, lo, hi, start, n)
    ensures lo < x || x + 1 < hi ==> x % 2 == 1
    ensures x % 2 == 0 ==> lo == x && hi == x + 1
  {
    hide First, Level;
    if lo < x { Nested(lo, x); }
    if x + 1 < hi { Nested(x + 1, x); }
  }

  /** Going left from x searches exactly the part of its region before x. */
  lemma RegionLeft(x: nat, lo: nat, hi: nat, start: nat, n: nat)
    requires Region(x, lo, hi, start, n) && lo < x && x % 2 == 1
    ensures Region(SearchLeft(x, start, n), lo, x, start, n)
    ensures Level(SearchLeft(x, start, n)) < Level(x)
  {
    hide First, Level, LeftOf, MoveWithin;
    LeftOfIs(x);
    MoveWithinIs(LeftOf(x), start, n);
    var r := SearchLeft(x, start, n);
    assert Within(x - 1, LeftOf(x)) && Within(lo, LeftOf(x)) by { assert Within(lo, x); }
    assert Within(x - 1, r) && Within(lo, r);
    forall y | lo <= y < x
      ensures Within(y, r)
    {
      assert Within(y, LeftOf(x));
    }
  }

  /** Going right from x searches exactly the part of its region after x. */
  lemma RegionRight(x: nat, lo: nat, hi: nat, start: nat, n: nat)
    requires Region(x, lo, hi, start, n) && x + 1 < hi && x % 2 == 1
    ensures Region(SearchRight(x, start, n), x + 1, hi, start, n)
    ensures Level(SearchRight(x, start, n)) < Level(x)
  {
    hide First, Level, RightOf, MoveWithin;
    RightOfIs(x);
    MoveWithinIs(RightOf(x), start, n);
    var r := SearchRight(x, start, n);
    assert Within(x + 1, RightOf(x)) && Within(hi - 1, RightOf(x)) by { assert Within(hi - 1, x); }
    assert Within(x + 1, r) && Within(hi - 1, r);
    forall y | x + 1 <= y < hi
      ensures Within(y, r)
    {
      assert Within(y, x);
      assert Within(y, RightOf(x));
    }
  }

  /** The root of a search; there is none over an empty window, where the source panics. */
  method Root(start: u64, n: u64) returns (r: Option<u64>)
    requires n <= MAX_TREE_SIZE
    ensures r == if start < n then Some(SearchRoot(start, n)) else None
  {
    hide First, Level, TopOf, MoveWithin, Pow2, Log2;
    MaskFits(n);
    if start < n {
      TopSpans(n);
      TopIsMask(n);
    }
    r := MoveInto(Pow2(Log2(n)) - 1, start, n);
  }

  lemma MaskFits(n: nat)
    requires n <= MAX_TREE_SIZE
    ensures Hi(Pow2(Log2(n)) - 1) < TWO_64 - 2
  {
    hide First, Level, TopOf;
    if n == 0 {
      assert Log2(0) == 0 && Pow2(0) == 1;
      Leaf(0);
    } else {
      TopIsMask(n);
      TopSpans(n);
    }
  }

  lemma TopIsMask(n: nat)
    requires n >= 1
    ensures TopOf(n) == Pow2(Log2(n)) - 1
  {
  }

  lemma LowUnderSize(x: nat, n: nat)
    requires x < n <= MAX_TREE_SIZE
    ensures Level(x) < 63 && Hi(x) < TWO_64 - 2
  {
    hide First, Level, TopOf;
    TopSpans(n);
    LowUnder(x, TopOf(n));
  }

  method Left(x: u64, start: u64, n: u64) returns (r: u64)
    requires start < x < n <= MAX_TREE_SIZE && x % 2 == 1
    ensures r == SearchLeft(x, start, n)
  {
    hide First, Level, LeftOf, MoveWithin;
    LeftOfIs(x);
    LowUnderSize(x, n);
    var l := GoLeft(x);
    var moved := MoveInto(l, start, n);
    r := moved.value;
  }

  method Right(x: u64, start: u64, n: u64) returns (r: u64)
    requires start <= x < n - 1 && n <= MAX_TREE_SIZE && x % 2 == 1
    ensures r == SearchRight(x, start, n)
  {
    hide First, Level, RightOf, MoveWithin;
    RightOfIs(x);
    LowUnderSize(x, n);
    var c := GoRight(x);
    var moved := MoveInto(c, start, n);
    r := moved.value;
  }
}
