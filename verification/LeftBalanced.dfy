/** Machine-level arithmetic on unsigned words, written as recursion over binary digits.

The source works on 64-bit words with shifts, `|` and `^`.  Here a word is a natural number and each
bit operation is defined digit by digit, so that facts about it follow by halving. */
module Bits {
  const TWO_64: nat := 0x1_0000_0000_0000_0000

  /** A 64-bit unsigned word: assigning to a variable of this type proves the value does not overflow. */
  type u64 = x: nat | x < TWO_64

  /** Upper bound on the tree sizes the client accepts. */
  const MAX_TREE_SIZE: nat := 0x4000_0000_0000_0000

  function Pow2(k: nat): (r: nat)
    ensures r >= 1
  {
    if k == 0 then 1 else 2 * Pow2(k - 1)
  }

  /** Rust's `checked_ilog2().unwrap_or(0)`. */
  function Log2(n: nat): nat {
    if n < 2 then 0 else 1 + Log2(n / 2)
  }

  function Xor(a: nat, b: nat): nat {
    if a == 0 && b == 0 then 0
    else (if a % 2 == b % 2 then 0 else 1) + 2 * Xor(a / 2, b / 2)
  }

  function Or(a: nat, b: nat): nat {
    if a == 0 && b == 0 then 0
    else (if a % 2 == 1 || b % 2 == 1 then 1 else 0) + 2 * Or(a / 2, b / 2)
  }

  function Shl(x: nat, k: nat): nat {
    if k == 0 then x else 2 * Shl(x, k - 1)
  }

  function Shr(x: nat, k: nat): nat {
    if k == 0 then x else Shr(x / 2, k - 1)
  }

  /** Rust's `trailing_ones`. */
  function TrailingOnes(x: nat): nat {
    if x % 2 == 1 then 1 + TrailingOnes(x / 2) else 0
  }

  lemma {:induction false} Log2Bounds(n: nat)
    requires n >= 1
    ensures Pow2(Log2(n)) <= n < 2 * Pow2(Log2(n))
  {
    if n >= 2 { Log2Bounds(n / 2); }
  }

  lemma {:induction false} ShlIsTimes(x: nat, k: nat)
    ensures Shl(x, k) == x * Pow2(k)
  {
    if k > 0 { ShlIsTimes(x, k - 1); }
  }

  lemma {:induction false} Pow2Monotone(a: nat, b: nat)
    requires a <= b
    ensures Pow2(a) <= Pow2(b)
  {
    if a < b { Pow2Monotone(a, b - 1); }
  }

  lemma {:induction false} Pow2Reflects(a: nat, b: nat)
    requires Pow2(a) < 2 * Pow2(b)
    ensures a <= b
  {
    if a > 0 && b > 0 { Pow2Reflects(a - 1, b - 1); }
  }

  lemma Pow2Concrete()
    ensures Pow2(62) == 0x4000_0000_0000_0000
    ensures Pow2(63) == 0x8000_0000_0000_0000
  {
    assert Pow2(10) == 0x400;
    assert Pow2(20) == 0x10_0000;
    assert Pow2(30) == 0x4000_0000;
    assert Pow2(40) == 0x100_0000_0000;
    assert Pow2(50) == 0x4_0000_0000_0000;
    assert Pow2(60) == 0x1000_0000_0000_0000;
  }

  // One digit at a time.

  lemma {:induction false} XorZero(a: nat)
    ensures Xor(a, 0) == a
  {
    if a != 0 { XorZero(a / 2); }
  }

  lemma {:induction false} OrZero(a: nat)
    ensures Or(a, 0) == a
  {
    if a != 0 { OrZero(a / 2); }
  }

  lemma XorOddEven(a: nat, b: nat)
    ensures Xor(2 * a + 1, 2 * b) == 2 * Xor(a, b) + 1
  {
    assert (2 * a + 1) / 2 == a && (2 * b) / 2 == b;
  }

  lemma OrOddEven(a: nat, b: nat)
    ensures Or(2 * a + 1, 2 * b) == 2 * Or(a, b) + 1
  {
    assert (2 * a + 1) / 2 == a && (2 * b) / 2 == b;
  }

  lemma OrEvenOne(a: nat)
    ensures Or(2 * a, 1) == 2 * a + 1
  {
    assert (2 * a) / 2 == a && 1 / 2 == 0;
    OrZero(a);
  }

  lemma XorOddOdd(a: nat, b: nat)
    ensures Xor(2 * a + 1, 2 * b + 1) == 2 * Xor(a, b)
  {
    assert (2 * a + 1) / 2 == a && (2 * b + 1) / 2 == b;
  }

  lemma XorEvenOne(a: nat)
    ensures Xor(2 * a, 1) == 2 * a + 1
  {
    assert (2 * a) / 2 == a && 1 / 2 == 0;
    XorZero(a);
  }
}

/** The shape of the unbounded left-balanced tree, in plain arithmetic.

Nodes are numbered left to right; even numbers are leaves.  Halving an interior node drops the leaf
layer, and every proof here follows that halving. */
module Geometry {

  /** Index of the first leaf below node x, counting leaves from 0. */
  function First(x: nat): (f: nat)
    ensures 2 * f <= x
  {
    if x % 2 == 0 then x / 2 else 2 * First(x / 2)
  }

  /** Index of the last leaf below node x: a node number is the sum of its first and last leaf. */
  function Last(x: nat): nat {
    x - First(x)
  }

  /** The number of leaves below x. */
  function Span(x: nat): (s: nat)
    ensures 1 <= s <= x + 1
  {
    Last(x) - First(x) + 1
  }

  function Level(x: nat): nat {
    if x % 2 == 0 then 0 else 1 + Level(x / 2)
  }

  /** The least and greatest node numbers below x; both are leaves. */
  function Lo(x: nat): nat {
    2 * First(x)
  }

  function Hi(x: nat): nat {
    2 * Last(x)
  }

  /** x lies in the subtree rooted at a. */
  predicate Within(x: nat, a: nat) {
    Lo(a) <= x <= Hi(a)
  }

  function LeftOf(x: nat): nat
    requires x % 2 == 1
  {
    x - Span(x / 2)
  }

  function RightOf(x: nat): nat
    requires x % 2 == 1
  {
    x + Span(x / 2)
  }

  function UpOf(x: nat): nat {
    if x % 2 == 1 then 2 * UpOf(x / 2) + 1
    else if x % 4 == 0 then x + 1
    else x - 1
  }

  lemma Leaf(x: nat)
    requires x % 2 == 0
    ensures 2 * First(x) == x && Level(x) == 0
  {
  }

  lemma LeafAt(e: nat)
    ensures First(2 * e) == e && Level(2 * e) == 0
  {
  }

  lemma Halve(x: nat, y: nat)
    requires x == 2 * y + 1
    ensures First(x) == 2 * First(y)
    ensures Level(x) == Level(y) + 1
  {
    assert x / 2 == y;
  }

  // ---------------------------------------------------------------------------------------------
  // Children and parents.

  /** l is the left child of x. */
  ghost predicate IsLeftChild(l: nat, x: nat) {
    Level(x) == Level(l) + 1 && First(l) == First(x) && Hi(l) == x - 1
  }

  /** r is the right child of x. */
  ghost predicate IsRightChild(r: nat, x: nat) {
    Level(x) == Level(r) + 1 && Lo(r) == x + 1 && Last(r) == Last(x)
  }

  lemma LeftChildDoubles(x: nat, y: nat, u: nat, v: nat)
    requires x == 2 * y + 1 && v == 2 * u + 1
    requires IsLeftChild(u, y)
    ensures IsLeftChild(v, x)
  {
    hide First, Level;
    Halve(x, y);
    Halve(v, u);
  }

  lemma RightChildDoubles(x: nat, y: nat, u: nat, v: nat)
    requires x == 2 * y + 1 && v == 2 * u + 1
    requires IsRightChild(u, y)
    ensures IsRightChild(v, x)
  {
    hide First, Level;
    Halve(x, y);
    Halve(v, u);
  }

  lemma ChildrenOfLowest(q: nat)
    ensures IsLeftChild(4 * q, 4 * q + 1)
    ensures IsRightChild(4 * q + 2, 4 * q + 1)
  {
    hide First, Level;
    Halve(4 * q + 1, 2 * q);
    LeafAt(q);
    LeafAt(2 * q);
    LeafAt(2 * q + 1);
  }

  lemma ChildrenHalve(x: nat, y: nat)
    requires x == 2 * y + 1 && x % 2 == 1 && y % 2 == 1
    ensures LeftOf(x) == 2 * LeftOf(y) + 1
    ensures RightOf(x) == 2 * RightOf(y) + 1
  {
    hide First;
    assert x / 2 == y;
    Halve(y, y / 2);
  }

  lemma {:induction false} LeftOfIsChild(x: nat)
    requires x % 2 == 1
    ensures IsLeftChild(LeftOf(x), x)
  {
    var y := x / 2;
    if y % 2 == 0 {
      hide IsLeftChild, First;
      Leaf(y);
      ChildrenOfLowest(y / 2);
    } else {
      hide *;
      ChildrenHalve(x, y);
      LeftOfIsChild(y);
      LeftChildDoubles(x, y, LeftOf(y), LeftOf(x));
    }
  }

  lemma {:induction false} RightOfIsChild(x: nat)
    requires x % 2 == 1
    ensures IsRightChild(RightOf(x), x)
  {
    var y := x / 2;
    if y % 2 == 0 {
      hide IsRightChild, First;
      Leaf(y);
      ChildrenOfLowest(y / 2);
    } else {
      hide *;
      ChildrenHalve(x, y);
      RightOfIsChild(y);
      RightChildDoubles(x, y, RightOf(y), RightOf(x));
    }
  }

  lemma UpOfOdd(x: nat, y: nat)
    requires x == 2 * y + 1
    ensures UpOf(x) == 2 * UpOf(y) + 1
  {
    assert x / 2 == y;
  }

  lemma LeafParity(x: nat) returns (q: nat)
    requires x % 2 == 0
    ensures x == 4 * q || x == 4 * q + 2
  {
    var y := x / 2;
    q := y / 2;
    assert x == 2 * y;
    assert y == 2 * q || y == 2 * q + 1;
  }

  lemma UpOfEven(x: nat, q: nat)
    requires x == 4 * q || x == 4 * q + 2
    ensures UpOf(x) == 4 * q + 1
  {
  }

  /** Every node is the left or the right child of the node above it. */
  lemma {:induction false} UpOfIsParent(x: nat)
    ensures IsLeftChild(x, UpOf(x)) || IsRightChild(x, UpOf(x))
  {
    hide *;
    if x % 2 == 0 {
      var q := LeafParity(x);
      UpOfEven(x, q);
      ChildrenOfLowest(q);
    } else {
      var y := x / 2;
      UpOfOdd(x, y);
      UpOfIsParent(y);
      if IsLeftChild(y, UpOf(y)) {
        LeftChildDoubles(UpOf(x), UpOf(y), y, x);
      } else {
        RightChildDoubles(UpOf(x), UpOf(y), y, x);
      }
    }
  }

  lemma LeftOfIs(x: nat)
    requires x % 2 == 1
    ensures Span(x) == 2 * Span(LeftOf(x))
    ensures Lo(LeftOf(x)) == Lo(x) && Hi(LeftOf(x)) == x - 1
    ensures Level(x) == Level(LeftOf(x)) + 1
  {
    hide LeftOf, First, Level;
    LeftOfIsChild(x);
  }

  lemma RightOfIs(x: nat)
    requires x % 2 == 1
    ensures Span(x) == 2 * Span(RightOf(x))
    ensures Lo(RightOf(x)) == x + 1 && Hi(RightOf(x)) == Hi(x)
    ensures Level(x) == Level(RightOf(x)) + 1
  {
    hide RightOf, First, Level;
    RightOfIsChild(x);
  }

  /** The parent sits one span to the right of a left child, one span to the left of a right child. */
  lemma UpOfIs(x: nat)
    ensures UpOf(x) == x + Span(x) || UpOf(x) == x - Span(x)
    ensures Span(UpOf(x)) == 2 * Span(x)
    ensures Level(UpOf(x)) == Level(x) + 1
    ensures Within(x, UpOf(x)) && x != UpOf(x)
  {
    hide UpOf, First, Level;
    UpOfIsParent(x);
  }

  // ---------------------------------------------------------------------------------------------
  // Subtrees are nested or disjoint.

  /** A proper descendant lies wholly in one half of its ancestor. */
  lemma {:induction false} Nested(x: nat, a: nat)
    requires Within(x, a) && x != a
    ensures a % 2 == 1
    ensures 2 * Span(x) <= Span(a)
    ensures Level(x) < Level(a)
    ensures x < a ==> Hi(x) < a
    ensures x > a ==> a < Lo(x)
    ensures Lo(a) <= Lo(x) && Hi(x) <= Hi(a)
  {
    hide First, Level;
    if a % 2 == 0 {
      Leaf(a);
    } else {
      var b := a / 2;
      Halve(a, b);
      if x % 2 == 0 {
        Leaf(x);
      } else {
        var y := x / 2;
        Halve(x, y);
        Nested(y, b);
      }
    }
  }

  lemma WithinTransitive(x: nat, y: nat, z: nat)
    requires Within(x, y) && Within(y, z)
    ensures Within(x, z)
  {
    hide First;
    if y != z { Nested(y, z); }
  }

  lemma DisjointDoubles(p: nat, q: nat)
    requires Hi(p) < Lo(q)
    ensures Hi(2 * p + 1) < Lo(2 * q + 1)
  {
    hide First;
    Halve(2 * p + 1, p);
    Halve(2 * q + 1, q);
  }

  lemma WithinDoubles(p: nat, q: nat)
    requires Within(p, q)
    ensures Within(2 * p + 1, 2 * q + 1)
  {
    hide First;
    Halve(2 * q + 1, q);
  }

  lemma {:induction false} NestedOrDisjoint(x: nat, y: nat)
    ensures Within(x, y) || Within(y, x) || Hi(x) < Lo(y) || Hi(y) < Lo(x)
  {
    hide First;
    if x % 2 == 0 {
      Leaf(x);
    } else if y % 2 == 0 {
      Leaf(y);
    } else {
      hide *;
      var p, q := x / 2, y / 2;
      NestedOrDisjoint(p, q);
      if Within(p, q) {
        WithinDoubles(p, q);
      } else if Within(q, p) {
        WithinDoubles(q, p);
      } else if Hi(p) < Lo(q) {
        DisjointDoubles(p, q);
      } else {
        DisjointDoubles(q, p);
      }
    }
  }

  lemma LowestInside(x: nat, b: nat, q: nat)
    requires x == 4 * q || x == 4 * q + 2
    requires Within(x, 2 * b + 1)
    ensures Within(4 * q + 1, 2 * b + 1)
  {
    hide First;
    Halve(2 * b + 1, b);
  }

  lemma WithinHalves(x: nat, a: nat, y: nat, b: nat)
    requires x == 2 * y + 1 && a == 2 * b + 1
    requires Within(x, a)
    ensures Within(y, b)
  {
    hide First;
    Halve(a, b);
  }

  /** The parent is the least proper ancestor. */
  lemma {:induction false} UpIsLeast(x: nat, a: nat)
    requires Within(x, a) && x != a
    ensures Within(UpOf(x), a)
  {
    Nested(x, a);
    hide *;
    var b := a / 2;
    assert a == 2 * b + 1;
    if x % 2 == 0 {
      var q := LeafParity(x);
      UpOfEven(x, q);
      LowestInside(x, b, q);
    } else {
      var y := x / 2;
      UpOfOdd(x, y);
      WithinHalves(x, a, y, b);
      UpIsLeast(y, b);
      WithinDoubles(UpOf(y), b);
    }
  }
}

/** The shared steps of the two left-balanced trees, as the bit formulas of RFC 9420. */
module LeftBalanced {
  import opened Bits
  import opened Geometry

  predicate IsLeaf(x: nat) {
    x % 2 == 0
  }

  /** The parent formula on unbounded numbers. */
  function ParentBits(x: nat): nat {
    var k := TrailingOnes(x);
    var b := Shr(x, k + 1) % 2;
    Xor(Or(x, Shl(1, k)), Shl(b, k + 1))
  }

  lemma {:induction false} LevelIsTrailingOnes(x: nat)
    ensures Level(x) == TrailingOnes(x)
    ensures Span(x) == Pow2(Level(x))
  {
    if x % 2 == 1 {
      LevelIsTrailingOnes(x / 2);
      Halve(x, x / 2);
    } else {
      Leaf(x);
    }
  }

  lemma LowestInterior(x: nat, y: nat)
    requires x == 2 * y + 1 && x % 2 == 1 && y % 2 == 0
    ensures TrailingOnes(x) == 1 && LeftOf(x) == x - 1 && RightOf(x) == x + 1
  {
    assert x / 2 == y;
    Leaf(y);
  }

  lemma {:induction false} LeftStepIs(x: nat)
    requires x % 2 == 1
    ensures Xor(x, Shl(1, TrailingOnes(x) - 1)) == LeftOf(x)
  {
    var y, k := x / 2, TrailingOnes(x);
    if y % 2 == 0 {
      assert Shl(1, 0) == 1;
      hide *;
      LowestInterior(x, y);
      XorOddOdd(y, 0);
      XorZero(y);
    } else {
      assert k == TrailingOnes(y) + 1 && Shl(1, k - 1) == 2 * Shl(1, k - 2);
      hide *;
      LeftStepIs(y);
      XorOddEven(y, Shl(1, k - 2));
      ChildrenHalve(x, y);
    }
  }

  lemma {:induction false} RightStepIs(x: nat)
    requires x % 2 == 1
    ensures Xor(x, Shl(3, TrailingOnes(x) - 1)) == RightOf(x)
  {
    var y, k := x / 2, TrailingOnes(x);
    if y % 2 == 0 {
      assert Shl(3, 0) == 3;
      hide *;
      var q := y / 2;
      assert y == 2 * q;
      LowestInterior(x, y);
      XorOddOdd(y, 1);
      XorEvenOne(q);
    } else {
      assert k == TrailingOnes(y) + 1 && Shl(3, k - 1) == 2 * Shl(3, k - 2);
      hide *;
      RightStepIs(y);
      XorOddEven(y, Shl(3, k - 2));
      ChildrenHalve(x, y);
    }
  }

  lemma {:induction false} ParentBitsIs(x: nat)
    ensures ParentBits(x) == UpOf(x)
  {
    var y := x / 2;
    if x % 2 == 1 {
      hide *;
      ParentBitsIs(y);
      ParentBitsHalve(x, y);
      UpOfOdd(x, y);
    } else {
      ParentOfLeafIs(x, y);
    }
  }

  lemma ParentBitsHalve(x: nat, y: nat)
    requires x == 2 * y + 1
    ensures ParentBits(x) == 2 * ParentBits(y) + 1
  {
    var k := TrailingOnes(y);
    assert x / 2 == y;
    assert TrailingOnes(x) == k + 1;
    var b := Shr(y, k + 1) % 2;
    assert Shr(x, k + 2) == Shr(y, k + 1);
    assert Shl(1, k + 1) == 2 * Shl(1, k) && Shl(b, k + 2) == 2 * Shl(b, k + 1);
    hide TrailingOnes, Shr, Shl, Or, Xor;
    OrOddEven(y, Shl(1, k));
    XorOddEven(Or(y, Shl(1, k)), Shl(b, k + 1));
  }

  lemma ParentBitsOfLeaf(x: nat, y: nat)
    requires x == 2 * y
    ensures ParentBits(x) == Xor(2 * y + 1, 2 * (y % 2))
  {
    assert x / 2 == y;
    assert Shr(x, 1) == Shr(y, 0) == y;
    assert TrailingOnes(x) == 0 && Shl(1, 0) == 1 && Shl(y % 2, 1) == 2 * (y % 2);
    hide TrailingOnes, Shr, Shl, Or, Xor;
    OrEvenOne(y);
  }

  lemma {:induction false} ParentOfLeafIs(x: nat, y: nat)
    requires x == 2 * y
    ensures ParentBits(x) == UpOf(x)
  {
    hide *;
    ParentBitsOfLeaf(x, y);
    var q := y / 2;
    XorOddEven(y, y % 2);
    UpOfEven(x, q);
    XorZero(y);
    XorOddOdd(q, 0);
    XorZero(q);
  }

  // ---------------------------------------------------------------------------------------------
  // The same steps on words: every shift amount is below 64 and every value fits.

  lemma {:induction false} UpStaysBelow(x: nat, m: nat)
    requires x < Pow2(m) && Level(x) + 1 < m
    ensures UpOf(x) < Pow2(m)
  {
    assert Pow2(m) == 4 * Pow2(m - 2) && Pow2(m) == 2 * Pow2(m - 1);
    hide *;
    if x % 2 == 0 {
      var q := LeafParity(x);
      UpOfEven(x, q);
    } else {
      var y := x / 2;
      assert x == 2 * y + 1;
      Halve(x, y);
      UpOfOdd(x, y);
      UpStaysBelow(y, m - 1);
    }
  }

  /** A node whose subtree ends well inside the word is low enough to have a parent in it. */
  lemma LowLevel(x: nat)
    requires Hi(x) < TWO_64 - 2
    ensures Level(x) < 63
  {
    hide Level, First, Pow2;
    Pow2Concrete();
    LevelIsTrailingOnes(x);
    if Level(x) >= 63 { Pow2Monotone(63, Level(x)); }
  }

  lemma LowUnder(x: nat, a: nat)
    requires Within(x, a) && Hi(a) < TWO_64 - 2
    ensures Level(x) < 63 && Hi(x) <= Hi(a)
  {
    hide Level, First;
    if x != a { Nested(x, a); }
    LowLevel(x);
  }

  lemma WordIsPow2()
    ensures Pow2(64) == TWO_64
  {
    Pow2Concrete();
    assert Pow2(64) == 2 * Pow2(63);
  }

  /** To the node of which x is a child. */
  method GoUp(x: u64) returns (p: u64)
    requires Level(x) < 63
    ensures p == UpOf(x)
  {
    hide TrailingOnes, Pow2, Level, First, UpOf, Shl, Shr, Xor, Or;
    LevelIsTrailingOnes(x);
    Pow2Concrete();
    WordIsPow2();
    UpStaysBelow(x, 64);
    var k := TrailingOnes(x);
    assert k + 1 < 64;
    ShlIsTimes(1, k);
    Pow2Monotone(k, 62);
    var bit: u64 := Shl(1, k);
    var b := Shr(x, k + 1) % 2;
    ShlIsTimes(b, k + 1);
    Pow2Monotone(k + 1, 63);
    var above: u64 := Shl(b, k + 1);
    ParentBitsIs(x);
    p := Xor(Or(x, bit), above);
  }

  /** Flipping the top of the trailing ones moves to the left child. */
  method GoLeft(x: u64) returns (l: u64)
    requires !IsLeaf(x) && Level(x) < 64
    ensures l == LeftOf(x)
  {
    hide TrailingOnes, Pow2, Level, First, LeftOf, Shl, Xor;
    LevelIsTrailingOnes(x);
    LeafHasNoOnes(x);
    Pow2Concrete();
    LeftOfIs(x);
    LeftOfIsBelow(x);
    var k := TrailingOnes(x);
    ShlIsTimes(1, k - 1);
    Pow2Monotone(k - 1, 62);
    var bit: u64 := Shl(1, k - 1);
    LeftStepIs(x);
    l := Xor(x, bit);
  }

  /** Flipping one bit more moves to the right child. */
  method GoRight(x: u64) returns (r: u64)
    requires !IsLeaf(x) && Hi(x) < TWO_64 && Level(x) < 64
    ensures r == RightOf(x)
  {
    hide TrailingOnes, Pow2, Level, First, RightOf, Shl, Xor;
    LevelIsTrailingOnes(x);
    LeafHasNoOnes(x);
    Pow2Concrete();
    RightOfIs(x);
    var k := TrailingOnes(x);
    ShlIsTimes(3, k - 1);
    Pow2Monotone(k - 1, 62);
    var bits: u64 := Shl(3, k - 1);
    RightStepIs(x);
    r := Xor(x, bits);
  }

  lemma LeftOfIsBelow(x: nat)
    requires x % 2 == 1
    ensures LeftOf(x) < x
  {
  }

  lemma LeafHasNoOnes(x: nat)
    ensures TrailingOnes(x) == 0 <==> IsLeaf(x)
  {
  }
}
