/** Monitoring paths and the frontier of the implicit search tree. */
module Paths {
  import opened Wrappers
  import opened Bits
  import opened Geometry
  import opened LeftBalanced
  import opened BoundedTree
  import opened Implicit

  // ---------------------------------------------------------------------------------------------
  // Right ancestors in closed form.

  /** The first ancestor to the right of x sits one past the end of its subtree. */
  lemma {:induction false} FirstRightAncestor(x: nat)
    ensures Within(x, Hi(x) + 1) && Hi(x) + 1 == x + Span(x)
  {
    hide First, Level;
    if x % 2 == 0 {
      Leaf(x);
      Halve(x + 1, x / 2);
    } else {
      var y := x / 2;
      Halve(x, y);
      FirstRightAncestor(y);
      Halve(2 * (Hi(y) + 1) + 1, Hi(y) + 1);
      assert Hi(x) + 1 == 2 * (Hi(y) + 1) + 1;
    }
  }

  lemma RightAncestors(x: nat, a: nat)
    requires x < a && Within(x, a)
    ensures Hi(x) < a
    ensures a != Hi(x) + 1 ==> Hi(x) + 1 < a && Within(Hi(x) + 1, a)
  {
    hide First, Level;
    FirstRightAncestor(x);
    var y := Hi(x) + 1;
    Nested(x, a);
    NestedOrDisjoint(y, a);
    if a != y && Within(a, y) { Nested(a, y); }
  }

  /** All ancestors of x in (x, n), lowest first. */
  function RightPath(x: nat, n: nat): seq<nat>
    decreases n - x
  {
    var y := x + Span(x);
    if y < n then [y] + RightPath(y, n) else []
  }

  /** The list is increasing and holds exactly the ancestors a of x with x < a < n. */
  lemma {:induction false} RightPathIs(x: nat, n: nat, a: nat)
    ensures a in RightPath(x, n) <==> x < a < n && Within(x, a)
    decreases n - x
  {
    hide First, Level, Span;
    var y := x + Span(x);
    FirstRightAncestor(x);
    if x < a && Within(x, a) { RightAncestors(x, a); }
    if y < n {
      RightPathIs(y, n, a);
      if y < a && Within(y, a) { WithinTransitive(x, y, a); }
    }
  }

  lemma {:induction false} RightPathIncreases(x: nat, n: nat)
    ensures forall i | 0 <= i < |RightPath(x, n)| :: x < RightPath(x, n)[i] < n
    ensures forall i, j | 0 <= i < j < |RightPath(x, n)| :: RightPath(x, n)[i] < RightPath(x, n)[j]
    decreases n - x
  {
    hide First, Span;
    var y := x + Span(x);
    if y < n { RightPathIncreases(y, n); }
  }

  /** A larger log only extends the path. */
  lemma {:induction false} RightPathExtends(x: nat, n: nat, n': nat)
    requires n <= n'
    ensures RightPath(x, n) <= RightPath(x, n')
    decreases n - x
  {
    hide First, Span;
    var y := x + Span(x);
    if y < n { RightPathExtends(y, n, n'); }
  }

  /** From any node of the path, its own path is the remainder. */
  lemma {:induction false} RightPathComposes(x: nat, n: nat, i: nat)
    requires i < |RightPath(x, n)|
    ensures RightPath(RightPath(x, n)[i], n) == RightPath(x, n)[i + 1..]
    decreases i
  {
    hide First, Span;
    var y := x + Span(x);
    if i > 0 {
      RightPathComposes(y, n, i - 1);
      assert RightPath(x, n)[1..] == RightPath(y, n);
    }
  }

  // ---------------------------------------------------------------------------------------------
  // The path as the source walks it.

  /** x can reach the search root by going up. */
  ghost predicate BelowRoot(x: nat, start: nat, n: nat)
    requires start < n
  {
    Within(x, SearchRoot(start, n))
  }

  lemma BelowTop(x: nat, start: nat, n: nat)
    requires start < n && BelowRoot(x, start, n) && x != SearchRoot(start, n)
    ensures Within(x, TopOf(n)) && x != TopOf(n)
    ensures ParentIn(x, n) < n && BelowRoot(ParentIn(x, n), start, n)
    ensures Level(x) < Level(ParentIn(x, n)) <= Level(SearchRoot(start, n))
  {
    hide First, Level, TopOf, MoveWithin, SearchRoot, ParentIn;
    var r := SearchRoot(start, n);
    RootIsPeak(start, n);
    TopSpans(n);
    assert Within(r, TopOf(n));
    WithinTransitive(x, r, TopOf(n));
    if x == TopOf(n) {
      Nested(x, r);
      Nested(r, x);
    }
    ParentInIs(x, n);
    var p := ParentIn(x, n);
    if p != r { Nested(p, r); }
  }

  /** The ancestors of x below n, up to the search root. */
  function DirectPath(x: nat, start: nat, n: nat): seq<nat>
    requires start < n && BelowRoot(x, start, n)
    decreases Level(SearchRoot(start, n)) - Level(x)
  {
    if x == SearchRoot(start, n) then []
    else
      BelowTop(x, start, n);
      [ParentIn(x, n)] + DirectPath(ParentIn(x, n), start, n)
  }

  function Filter(s: seq<nat>, x: nat): seq<nat> {
    if s == [] then []
    else if s[0] > x then [s[0]] + Filter(s[1..], x)
    else Filter(s[1..], x)
  }

  /** The ancestors to be checked as part of monitoring the entry x. */
  function MonitoringPath(x: nat, start: nat, n: nat): seq<nat>
    requires start < n && BelowRoot(x, start, n)
  {
    Filter(DirectPath(x, start, n), x)
  }

  /** The parent of c below n is its first right ancestor when that is below n; otherwise it lies left. */
  lemma ParentSide(c: nat, n: nat)
    requires n >= 1 && Within(c, TopOf(n)) && c != TopOf(n)
    ensures ParentIn(c, n) > c ==> ParentIn(c, n) == Hi(c) + 1
    ensures ParentIn(c, n) < c ==> Hi(c) + 1 >= n || Hi(ParentIn(c, n)) == Hi(c)
    ensures ParentIn(c, n) < c ==> Hi(ParentIn(c, n)) >= Hi(c)
  {
    hide First, Level, TopOf, ParentIn, UpOf;
    ParentInIs(c, n);
    var p := ParentIn(c, n);
    Nested(c, p);
    FirstRightAncestor(c);
    var y := Hi(c) + 1;
    if p > c {
      RightAncestors(c, p);
      if p != y {
        assert y < n && Within(c, y) && y != c;
        assert Within(p, y);
        Nested(p, y);
      }
    } else if y < n {
      LeftParentEnds(c, n);
    }
  }

  lemma LeftParentEnds(c: nat, n: nat)
    requires n >= 1 && Within(c, TopOf(n)) && c != TopOf(n) && ParentIn(c, n) < c && Hi(c) + 1 < n
    ensures Hi(ParentIn(c, n)) == Hi(c)
  {
    hide First, Level, TopOf, ParentIn;
    ParentInIs(c, n);
    var p, y := ParentIn(c, n), Hi(c) + 1;
    FirstRightAncestor(c);
    Nested(c, p);
    assert Within(p, y);
    Nested(p, y);
  }

  lemma {:induction false} FilteredPath(c: nat, x: nat, start: nat, n: nat)
    requires start < n && BelowRoot(c, start, n) && Within(x, c)
    ensures Filter(DirectPath(c, start, n), x) == if Hi(c) + 1 < n then [Hi(c) + 1] + RightPath(Hi(c) + 1, n) else []
    decreases Level(SearchRoot(start, n)) - Level(c)
  {
    hide First, Level, TopOf, ParentIn, SearchRoot, Span, RightPath;
    RootIsPeak(start, n);
    if c == SearchRoot(start, n) {
      assert Within(n - 1, c);
    } else {
      BelowTop(c, start, n);
      var p := ParentIn(c, n);
      ParentInIs(c, n);
      WithinTransitive(x, c, p);
      Nested(c, p);
      FilteredPath(p, x, start, n);
      ParentSide(c, n);
      assert ([p] + DirectPath(p, start, n))[1..] == DirectPath(p, start, n);
      RightPathStep(p, n);
    }
  }

  lemma RightPathStep(p: nat, n: nat)
    ensures RightPath(p, n) == if Hi(p) + 1 < n then [Hi(p) + 1] + RightPath(Hi(p) + 1, n) else []
  {
    hide First;
    FirstRightAncestor(p);
  }

  /** The monitoring path is the list of right ancestors; in particular it does not depend on start. */
  lemma MonitoringPathIs(x: nat, start: nat, n: nat)
    requires start < n && BelowRoot(x, start, n)
    ensures MonitoringPath(x, start, n) == RightPath(x, n)
  {
    hide First, DirectPath, Filter, RightPath, SearchRoot;
    FilteredPath(x, x, start, n);
    RightPathStep(x, n);
  }

  /** Every entry of the window is below the search root. */
  lemma WindowBelowRoot(x: nat, start: nat, n: nat)
    requires start <= x < n
    ensures BelowRoot(x, start, n)
  {
    hide First, SearchRoot;
    RootIsPeak(start, n);
  }

  /** Outside that, the walk up never meets the search root: the source's iteration would not end. */
  lemma {:induction false} WalkMissesRoot(x: nat, start: nat, n: nat, steps: nat)
    requires start < n && !BelowRoot(x, start, n)
    ensures Ups(x, steps) != SearchRoot(start, n)
  {
    hide First, Level, SearchRoot, UpOf;
    AncestorOfSelf(x, steps);
  }

  /** The node reached after some parent steps in the unbounded tree. */
  function Ups(x: nat, steps: nat): nat {
    if steps == 0 then x else UpOf(Ups(x, steps - 1))
  }

  lemma {:induction false} AncestorOfSelf(x: nat, steps: nat)
    ensures Within(x, Ups(x, steps))
  {
    hide First, Level, UpOf;
    if steps > 0 {
      AncestorOfSelf(x, steps - 1);
      UpOfIs(Ups(x, steps - 1));
      WithinTransitive(x, Ups(x, steps - 1), Ups(x, steps));
    }
  }

  /** There is an ancestor below n exactly below the top of the tree. */
  ghost predicate HasParent(x: nat, n: nat) {
    n >= 1 && Within(x, TopOf(n)) && x != TopOf(n)
  }

  lemma ParentMeansBelowTop(x: nat, a: nat, n: nat)
    requires a < n && Within(x, a) && x != a
    ensures HasParent(x, n)
  {
    hide First, Level, TopOf;
    TopSpans(n);
    assert Within(a, TopOf(n));
    WithinTransitive(x, a, TopOf(n));
    if x == TopOf(n) {
      Nested(x, a);
      if a != x { Nested(a, x); }
    }
  }

  lemma ParentIsLow(x: nat, n: nat)
    requires n <= MAX_TREE_SIZE
    ensures HasParent(x, n) ==> Level(x) < 63
  {
    hide First, Level, TopOf;
    if HasParent(x, n) {
      TopSpans(n);
      LowUnder(x, TopOf(n));
    }
  }

  /** Climbing from x has come to p without passing the parent of x. */
  ghost predicate Climbing(x: nat, p: nat, n: nat) {
    && Within(x, p) && p != x
    && (HasParent(x, n) <==> p < n || HasParent(p, n))
    && (HasParent(x, n) ==> Within(p, TopOf(n)) && Climb(p, n) == ParentIn(x, n))
  }

  lemma ClimbingStarts(x: nat, n: nat)
    ensures Climbing(x, UpOf(x), n)
  {
    hide First, Level, UpOf, TopOf;
    UpOfIs(x);
    if UpOf(x) < n {
      ParentMeansBelowTop(x, UpOf(x), n);
    } else if HasParent(UpOf(x), n) {
      AboveTheTop(x, UpOf(x), n);
    }
    if HasParent(x, n) {
      TopSpans(n);
      ClimbStep(x, n);
    }
  }

  lemma AboveTheTop(x: nat, p: nat, n: nat)
    requires HasParent(p, n) && Within(x, p)
    ensures HasParent(x, n)
  {
    hide First, Level, TopOf;
    WithinTransitive(x, p, TopOf(n));
    if x == TopOf(n) { Nested(p, TopOf(n)); }
  }

  lemma ClimbingGoesOn(x: nat, p: nat, n: nat)
    requires Climbing(x, p, n) && p >= n
    ensures Climbing(x, UpOf(p), n)
  {
    hide First, Level, UpOf, TopOf, ParentIn;
    ClimbingStarts(p, n);
    UpOfIs(p);
    WithinTransitive(x, p, UpOf(p));
    Nested(x, p);
    if HasParent(x, n) {
      TopSpans(n);
      ClimbStep(p, n);
    }
  }

  lemma ClimbingEnds(x: nat, p: nat, n: nat)
    requires Climbing(x, p, n) && p < n
    ensures HasParent(x, n) && ParentIn(x, n) == p
  {
    hide First, TopOf, ParentIn, Level;
    TopSpans(n);
  }

  /** The parent in the implicit tree.  Without one the source's loop climbs out of the 64-bit word,
  where its shift overflows: it does not return. */
  method Parent(x: u64, n: u64) returns (r: Option<u64>)
    requires n <= MAX_TREE_SIZE
    ensures r.Some? <==> HasParent(x, n)
    ensures r.Some? ==> r.value == ParentIn(x, n)
  {
    hide First, Level, UpOf, TopOf, TrailingOnes, HasParent, ParentIn, Climb, Climbing;
    LevelIsTrailingOnes(x);
    ParentIsLow(x, n);
    if TrailingOnes(x) >= 63 {
      return None;
    }
    ClimbingStarts(x, n);
    UpOfIs(x);
    var p: u64 := GoUp(x);
    while p >= n
      invariant Climbing(x, p, n) && Level(p) <= 63
      decreases 64 - Level(p)
    {
      LevelIsTrailingOnes(p);
      ParentIsLow(p, n);
      if TrailingOnes(p) >= 63 {
        NotClimbing(x, p, n);
        return None;
      }
      ClimbingGoesOn(x, p, n);
      UpOfIs(p);
      p := GoUp(p);
    }
    ClimbingEnds(x, p, n);
    return Some(p);
  }

  lemma NotClimbing(x: nat, p: nat, n: nat)
    requires Climbing(x, p, n) && p >= n && !HasParent(p, n)
    ensures !HasParent(x, n)
  {
    hide First, Level, TopOf, ParentIn, Climb;
  }

  /** Walking one step up moves along the list of right ancestors. */
  lemma WalkStep(c: nat, x: nat, n: nat)
    requires HasParent(c, n) && Within(x, c)
    ensures var p := ParentIn(c, n);
            && p < n && Within(x, p) && Level(c) < Level(p)
            && RightPath(c, n) == (if p > x then [p] else []) + RightPath(p, n)
  {
    hide First, Level, TopOf, ParentIn, RightPath;
    TopSpans(n);
    ParentInIs(c, n);
    var p := ParentIn(c, n);
    WithinTransitive(x, c, p);
    Nested(c, p);
    ParentSide(c, n);
    RightPathStep(c, n);
    RightPathStep(p, n);
  }

  /** The walk from x meets the search root. */
  ghost predicate WalkReturns(x: nat, start: nat, n: nat) {
    start < n && BelowRoot(x, start, n)
  }

  /** Collect the monitoring path by walking up from x to the search root.  The walk returns exactly
  from nodes below that root. */
  method CollectMonitoringPath(x: u64, start: u64, n: u64) returns (r: Option<seq<nat>>)
    requires n <= MAX_TREE_SIZE
    ensures r.Some? <==> WalkReturns(x, start, n)
    ensures r.Some? ==> r.value == MonitoringPath(x, start, n) == RightPath(x, n)
  {
    hide First, Level, TopOf, ParentIn, SearchRoot, RightPath, MonitoringPath, BelowRoot, HasParent;
    var root := Root(start, n);
    if root == None {
      return None;
    }
    WalkStart(x, start, n);
    var path: seq<nat> := [];
    var c: u64 := x;
    while c != root.value
      invariant Within(x, c) && RightPath(x, n) == path + RightPath(c, n)
      invariant BelowRoot(x, start, n) ==> Within(c, root.value)
      decreases 64 - Level(c)
    {
      WalkGoesOn(c, start, n);
      var p := Parent(c, n);
      if p == None {
        return None;
      }
      WalkStep(c, x, n);
      LowUnderSize(p.value, n);
      c := p.value;
      if c > x {
        path := path + [c];
      }
    }
    WalkEnds(x, start, n);
    return Some(path);
  }

  lemma WalkStart(x: nat, start: nat, n: nat)
    requires start < n
    ensures Within(x, x) && (BelowRoot(x, start, n) ==> Within(x, SearchRoot(start, n)))
    ensures BelowRoot(x, start, n) ==> MonitoringPath(x, start, n) == RightPath(x, n)
    ensures [] + RightPath(x, n) == RightPath(x, n)
  {
    hide First, SearchRoot, RightPath, MonitoringPath;
    if BelowRoot(x, start, n) { MonitoringPathIs(x, start, n); }
  }

  /** Strictly below the search root there is a parent, and it is still below the search root. */
  lemma WalkGoesOn(c: nat, start: nat, n: nat)
    requires start < n && c != SearchRoot(start, n)
    ensures Within(c, SearchRoot(start, n)) ==> HasParent(c, n) && Within(ParentIn(c, n), SearchRoot(start, n))
  {
    hide First, Level, TopOf, ParentIn, SearchRoot;
    RootIsPeak(start, n);
    if Within(c, SearchRoot(start, n)) { BelowTop(c, start, n); }
  }

  lemma WalkEnds(x: nat, start: nat, n: nat)
    requires start < n && Within(x, SearchRoot(start, n))
    ensures BelowRoot(x, start, n) && RightPath(SearchRoot(start, n), n) == []
  {
    hide First, Level, SearchRoot, RightPath;
    RootIsPeak(start, n);
    assert Within(n - 1, SearchRoot(start, n));
    RightPathStep(SearchRoot(start, n), n);
  }

  // ---------------------------------------------------------------------------------------------
  // When to monitor next.

  /** The size at which x gains its first right ancestor. */
  method FirstParentToTheRight(entry: u64) returns (size: u64)
    requires entry < MAX_TREE_SIZE
    ensures size == Hi(entry) + 2
  {
    hide First, Level, UpOf;
    var out: u64 := entry;
    FirstRightAncestor(entry);
    AncestorOfFirst(entry, entry);
    while out <= entry
      invariant Within(entry, out) && (out <= entry ==> Within(out, Hi(entry) + 1) && out != Hi(entry) + 1)
      invariant out <= entry || out == Hi(entry) + 1
      decreases Span(Hi(entry) + 1) - Span(out)
    {
      UpOfIs(out);
      UpIsLeast(out, Hi(entry) + 1);
      WithinTransitive(entry, out, UpOf(out));
      AncestorOfFirst(entry, UpOf(out));
      if UpOf(out) != Hi(entry) + 1 { Nested(UpOf(out), Hi(entry) + 1); }
      LowUnderSize(out, MAX_TREE_SIZE);
      out := GoUp(out);
    }
    size := out + 1;
  }

  /** Between x and its first right ancestor there are only ancestors to the left. */
  lemma AncestorOfFirst(x: nat, a: nat)
    requires Within(x, a) && Within(a, Hi(x) + 1)
    ensures a <= x || a == Hi(x) + 1
    ensures a <= x ==> a != Hi(x) + 1
  {
    hide First, Level;
    FirstRightAncestor(x);
    if x < a {
      RightAncestors(x, a);
      if a != Hi(x) + 1 { Nested(a, Hi(x) + 1); }
    }
  }

  /** At size n some entry has a right ancestor to check. */
  ghost predicate HasWork(entries: seq<nat>, n: nat) {
    exists i | 0 <= i < |entries| :: RightPath(entries[i], n) != []
  }

  /** The smallest tree size at which some entry has something to check. */
  method NextMonitor(entries: seq<u64>) returns (size: nat)
    requires entries != [] && forall i | 0 <= i < |entries| :: entries[i] < MAX_TREE_SIZE
    ensures forall n: nat :: HasWork(entries, n) <==> size <= n
  {
    hide First, Span;
    size := FirstParentToTheRight(entries[0]);
    var i := 1;
    ghost var best := 0;
    while i < |entries|
      invariant 0 <= best < i <= |entries| && size == Hi(entries[best]) + 2
      invariant forall j | 0 <= j < i :: size <= Hi(entries[j]) + 2
    {
      var next := FirstParentToTheRight(entries[i]);
      if next < size {
        size := next;
        best := i;
      }
      i := i + 1;
    }
    forall n: nat
      ensures HasWork(entries, n) <==> size <= n
    {
      if size <= n {
        RightPathStep(entries[best], n);
        assert RightPath(entries[best], n) != [];
      }
      if j :| 0 <= j < |entries| && RightPath(entries[j], n) != [] {
        RightPathStep(entries[j], n);
      }
    }
  }

  // ---------------------------------------------------------------------------------------------
  // The frontier.

  /** The search root, then the root of what lies right of it, and so on to the last entry. */
  function Frontier(start: nat, n: nat): seq<nat>
    requires start < n
    decreases n - start
  {
    var r := SearchRoot(start, n);
    RootIsPeak(start, n);
    if r == n - 1 then [r] else [r] + Frontier(r + 1, n)
  }

  /** Increasing, inside the window, falling in level, and ending at the last entry. */
  lemma {:induction false} FrontierIs(start: nat, n: nat)
    requires start < n
    ensures |Frontier(start, n)| >= 1 && Frontier(start, n)[|Frontier(start, n)| - 1] == n - 1
    ensures forall i | 0 <= i < |Frontier(start, n)| :: start <= Frontier(start, n)[i] < n
    ensures forall i, j | 0 <= i < j < |Frontier(start, n)| :: Frontier(start, n)[i] < Frontier(start, n)[j]
    ensures |Frontier(start, n)| <= Level(Frontier(start, n)[0]) + 1 <= Log2(n) + 1
    decreases n - start
  {
    hide First, Level, SearchRoot, Log2;
    var r := SearchRoot(start, n);
    RootIsPeak(start, n);
    if r != n - 1 {
      FrontierIs(r + 1, n);
      RootIsPeak(r + 1, n);
      var r' := SearchRoot(r + 1, n);
      assert Frontier(r + 1, n)[0] == r';
      assert Within(r', r);
      Nested(r', r);
    }
  }

  /** Exactly the entries whose subtree reaches the end of the log are on the frontier. */
  lemma {:induction false} FrontierMembers(z: nat, start: nat, n: nat)
    requires start <= z < n
    ensures z in Frontier(start, n) <==> n - 1 <= Hi(z)
    decreases n - start
  {
    hide First, Level, SearchRoot;
    var r := SearchRoot(start, n);
    RootIsPeak(start, n);
    assert Within(z, r) && Within(n - 1, r);
    if z != r { Nested(z, r); }
    if r != n - 1 {
      FrontierIs(r + 1, n);
      if r + 1 <= z {
        FrontierMembers(z, r + 1, n);
      } else {
        var rest := Frontier(r + 1, n);
        assert forall i | 0 <= i < |rest| :: rest[i] != z;
      }
    }
  }

  /** After one of its members the frontier is the frontier of what follows. */
  lemma {:induction false} FrontierSuffix(start: nat, n: nat, i: nat)
    requires start < n && i < |Frontier(start, n)|
    ensures Frontier(start, n)[i] < n
    ensures Frontier(start, n)[i + 1..]
            == if Frontier(start, n)[i] == n - 1 then [] else Frontier(Frontier(start, n)[i] + 1, n)
    decreases n - start
  {
    hide First, Level, SearchRoot;
    var r := SearchRoot(start, n);
    RootIsPeak(start, n);
    var f := Frontier(start, n);
    if r != n - 1 && i > 0 {
      FrontierSuffix(r + 1, n, i - 1);
      assert f[i + 1..] == Frontier(r + 1, n)[i..];
    }
  }

  /** Going right from a frontier node leads to the root of what follows it. */
  lemma RightOnFrontier(x: nat, start: nat, n: nat)
    requires start <= x < n - 1 && n - 1 <= Hi(x)
    ensures x % 2 == 1 && SearchRight(x, start, n) == SearchRoot(x + 1, n)
    ensures n - 1 <= Hi(SearchRoot(x + 1, n))
  {
    hide First, Level, SearchRoot, RightOf, MoveWithin;
    assert Within(x + 1, x) && Within(n - 1, x);
    Nested(x + 1, x);
    RightOfIs(x);
    MoveWithinIs(RightOf(x), start, n);
    var s := SearchRight(x, start, n);
    assert IsPeak(s, x + 1, n) by {
      forall y | x + 1 <= y < n
        ensures Within(y, s)
      {
        assert Within(y, RightOf(x));
      }
    }
    RootIsPeak(x + 1, n);
    PeakIsUnique(s, SearchRoot(x + 1, n), x + 1, n);
    assert Within(n - 1, s);
  }

  method CollectFrontier(start: u64, n: u64) returns (f: seq<nat>)
    requires start < n <= MAX_TREE_SIZE
    ensures f == Frontier(start, n)
  {
    hide First, Level, SearchRoot, SearchRight;
    var root := Root(start, n);
    var last: u64 := root.value;
    RootIsPeak(start, n);
    assert Within(n - 1, last);
    f := [last];
    while last != n - 1
      invariant start <= last < n && n - 1 <= Hi(last)
      invariant Frontier(start, n) == if last == n - 1 then f else f + Frontier(last + 1, n)
      decreases n - last
    {
      RightOnFrontier(last, start, n);
      RootIsPeak(last + 1, n);
      last := Right(last, start, n);
      f := f + [last];
    }
  }

  // ---------------------------------------------------------------------------------------------
  // The full monitoring path.

  /** The last node of the path of x, x itself when the path is empty. */
  function PathEnd(x: nat, n: nat): nat {
    if RightPath(x, n) == [] then x else RightPath(x, n)[|RightPath(x, n)| - 1]
  }

  /** The ancestors right of x, then the frontier past the last of them. */
  function FullPath(x: nat, n: nat): seq<nat>
    requires x < n
  {
    var z := PathEnd(x, n);
    RightPathIncreases(x, n);
    RightPath(x, n) + if z == n - 1 then [] else Frontier(z + 1, n)
  }

  lemma {:induction false} PathEndReaches(x: nat, n: nat)
    requires x < n
    ensures x <= PathEnd(x, n) < n && n - 1 <= Hi(PathEnd(x, n))
    decreases n - x
  {
    hide First, RightPath;
    RightPathStep(x, n);
    if Hi(x) + 1 < n {
      PathEndReaches(Hi(x) + 1, n);
      FirstRightAncestor(x);
    }
  }

  /** Strictly increasing inside (x, n), and ending at the last entry unless x is the last entry. */
  lemma FullPathIs(x: nat, n: nat)
    requires x < n
    ensures forall i | 0 <= i < |FullPath(x, n)| :: x < FullPath(x, n)[i] < n
    ensures forall i, j | 0 <= i < j < |FullPath(x, n)| :: FullPath(x, n)[i] < FullPath(x, n)[j]
    ensures x == n - 1 <==> FullPath(x, n) == []
    ensures x < n - 1 ==> FullPath(x, n)[|FullPath(x, n)| - 1] == n - 1
    ensures RightPath(x, n) <= FullPath(x, n)
  {
    hide First, Level, RightPath, Frontier, Log2;
    var p, z := RightPath(x, n), PathEnd(x, n);
    RightPathIncreases(x, n);
    PathEndReaches(x, n);
    if z != n - 1 { FrontierIs(z + 1, n); }
  }

  /** Only the end of the path is on the frontier. */
  lemma PathMeetsFrontier(x: nat, y: nat, n: nat)
    requires x < n && (y == x || y in RightPath(x, n)) && n - 1 <= Hi(y)
    ensures y == PathEnd(x, n)
  {
    hide First, RightPath;
    if RightPath(x, n) == [] {
    } else if y == x {
      RightPathStep(x, n);
    } else {
      var i :| 0 <= i < |RightPath(x, n)| && RightPath(x, n)[i] == y;
      RightPathComposes(x, n, i);
      RightPathStep(y, n);
    }
  }

  /** The position of the last frontier node among the given entries; the source panics if there is none. */
  method LastOnFrontier(frontier: seq<nat>, entries: set<nat>) returns (r: Option<nat>)
    ensures r == None <==> forall i | 0 <= i < |frontier| :: frontier[i] !in entries
    ensures r.Some? ==> r.value < |frontier| && frontier[r.value] in entries
    ensures r.Some? ==> forall i | r.value < i < |frontier| :: frontier[i] !in entries
  {
    var index := |frontier|;
    while index > 0
      invariant 0 <= index <= |frontier|
      invariant forall i | index <= i < |frontier| :: frontier[i] !in entries
    {
      index := index - 1;
      if frontier[index] in entries {
        return Some(index);
      }
    }
    return None;
  }

  /** Keep the first occurrence of each element; an increasing list keeps them all. */
  method Deduplicate(walked: seq<nat>) returns (path: seq<nat>, seen: set<nat>)
    requires forall i, j | 0 <= i < j < |walked| :: walked[i] < walked[j]
    ensures path == walked && seen == set y | y in walked
  {
    path, seen := [], {};
    var k := 0;
    while k < |walked|
      invariant k <= |walked| && path == walked[..k] && seen == set y | y in walked[..k]
    {
      if walked[k] !in seen {
        seen := seen + {walked[k]};
        path := path + [walked[k]];
      }
      k := k + 1;
    }
  }

  /** The full path of an entry can be computed: the entry lies in the tree and below the search root. */
  ghost predicate PathReturns(entry: nat, start: nat, n: nat) {
    start < n && entry < n && BelowRoot(entry, start, n)
  }

  lemma PathEndInWindow(entry: nat, start: nat, n: nat)
    requires PathReturns(entry, start, n)
    ensures start <= PathEnd(entry, n) < n
  {
    hide First, Level, RightPath, SearchRoot;
    PathEndReaches(entry, n);
    RootIsPeak(start, n);
    if entry < start {
      var r := SearchRoot(start, n);
      RightPathIs(entry, n, r);
      RightPathIncreases(entry, n);
      var i :| 0 <= i < |RightPath(entry, n)| && RightPath(entry, n)[i] == r;
    }
  }

  /** The end of the path is on the frontier, and it is the only visited node that is. */
  lemma FrontierLookup(entry: nat, start: nat, n: nat, seen: set<nat>)
    requires PathReturns(entry, start, n) && seen == (set y | y in RightPath(entry, n)) + {entry}
    ensures var f := Frontier(start, n);
            && (exists i | 0 <= i < |f| :: f[i] in seen)
            && forall i | 0 <= i < |f| && f[i] in seen :: f[i] == PathEnd(entry, n)
  {
    hide First, Level, RightPath, Frontier, SearchRoot, Hi, Log2;
    var f, z := Frontier(start, n), PathEnd(entry, n);
    PathEndReaches(entry, n);
    PathEndInWindow(entry, start, n);
    FrontierMembers(z, start, n);
    var k :| 0 <= k < |f| && f[k] == z;
    assert z in seen;
    FrontierIs(start, n);
    forall i | 0 <= i < |f| && f[i] in seen
      ensures f[i] == z
    {
      FrontierMembers(f[i], start, n);
      PathMeetsFrontier(entry, f[i], n);
    }
  }

  /** An entry past the end of the tree is on no frontier. */
  lemma FrontierLookupFails(entry: nat, start: nat, n: nat, seen: set<nat>)
    requires start < n <= entry && seen == (set y | y in RightPath(entry, n)) + {entry}
    ensures forall i | 0 <= i < |Frontier(start, n)| :: Frontier(start, n)[i] !in seen
  {
    hide First, Level, RightPath, Frontier, Log2;
    FrontierIs(start, n);
    RightPathIncreases(entry, n);
  }

  /** Everything to check when monitoring an entry.  The computation returns exactly for entries of the
  tree below the search root: otherwise the window is empty, the walk never meets the root, or no
  frontier node is found. */
  method FullMonitoringPath(entry: u64, start: u64, n: u64) returns (r: Option<seq<nat>>)
    requires n <= MAX_TREE_SIZE
    ensures r.Some? <==> PathReturns(entry, start, n)
    ensures r.Some? ==> r.value == FullPath(entry, n)
  {
    hide First, Level, RightPath, Frontier, SearchRoot, Hi, PathEnd, BelowRoot;
    var walked :- CollectMonitoringPath(entry, start, n);
    RightPathIncreases(entry, n);
    var path, seen := Deduplicate(walked);
    seen := seen + {entry};
    var f := CollectFrontier(start, n);
    if entry < n { FrontierLookup(entry, start, n, seen); } else { FrontierLookupFails(entry, start, n, seen); }
    var index :- LastOnFrontier(f, seen);
    FrontierSuffix(start, n, index);
    return Some(path + f[index + 1..]);
  }

  /** From the start of the window on, the tree only has to be larger than the entry. */
  lemma PathReturnsInside(entry: nat, start: nat, n: nat)
    requires start <= entry
    ensures PathReturns(entry, start, n) <==> entry < n
  {
    hide First, SearchRoot;
    if entry < n { WindowBelowRoot(entry, start, n); }
  }

  /** A tree of one entry has no path for entry 1: the walk from 1 misses the root 0 for ever. */
  lemma PathCanFailToReturn()
    ensures !PathReturns(1, 0, 1) && !WalkReturns(1, 0, 1)
    ensures forall steps: nat :: Ups(1, steps) != SearchRoot(0, 1)
  {
    hide First, Level, UpOf;
    RootIsPeak(0, 1);
    assert SearchRoot(0, 1) == 0;
    Leaf(0);
    forall steps: nat
      ensures Ups(1, steps) != SearchRoot(0, 1)
    {
      WalkMissesRoot(1, 0, 1, steps);
    }
  }
}
