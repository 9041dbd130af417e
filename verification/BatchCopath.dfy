/** The copath of a batch of leaves: the level-by-level algorithm against a recursive definition. */
module BatchCopath {
  import opened Bits
  import opened Geometry
  import opened LeftBalanced
  import opened BoundedTree
  import opened LogTree
  import opened Sorting

  /** Some requested leaf lies below x. */
  predicate Touched(x: nat, requested: set<nat>) {
    exists t | t in requested :: Within(t, x)
  }

  /** The maximal subtrees of x that contain no requested leaf, left to right. */
  function CopathOf(x: nat, n: nat, requested: set<nat>): seq<nat>
    requires n >= 1 && x < NodeWidth(n)
    decreases Level(x)
  {
    if !Touched(x, requested) then [x]
    else if x % 2 == 0 then []
    else
      ChildrenPartition(x, n);
      CopathOf(LeftOf(x), n, requested) + CopathOf(Right(x, n), n, requested)
  }

  /** The same subtrees together with the requested leaves. */
  function CoverOf(x: nat, n: nat, requested: set<nat>): seq<nat>
    requires n >= 1 && x < NodeWidth(n)
    decreases Level(x)
  {
    if !Touched(x, requested) || x % 2 == 0 then [x]
    else
      ChildrenPartition(x, n);
      CoverOf(LeftOf(x), n, requested) + CoverOf(Right(x, n), n, requested)
  }

  // ---------------------------------------------------------------------------------------------
  // Parents and siblings.

  /** Everything strictly below p in the tree lies below one of its two children. */
  lemma BelowAChild(y: nat, p: nat, n: nat)
    requires n >= 1 && p % 2 == 1 && p < NodeWidth(n)
    requires y < NodeWidth(n) && Within(y, p) && y != p
    ensures y < p ==> Within(y, LeftOf(p))
    ensures y > p ==> Within(y, Right(p, n))
  {
    hide First, Level, LeftOf, Right, RightIn;
    LeftOfIs(p);
    ChildrenPartition(p, n);
  }

  lemma ParentFacts(y: nat, n: nat)
    requires n >= 1 && y < NodeWidth(n) && y != Root(n)
    ensures ParentOf(y, n) < NodeWidth(n) && ParentOf(y, n) % 2 == 1
    ensures Within(y, ParentOf(y, n)) && y != ParentOf(y, n)
    ensures Level(y) < Level(ParentOf(y, n)) <= Level(Root(n))
    ensures forall a: nat | a < NodeWidth(n) && Within(y, a) && a != y :: Within(ParentOf(y, n), a)
  {
    hide First, Level, ParentIn, Root;
    WidthFits(n);
    WidthIs(n);
    ParentInIs(y, NodeWidth(n));
  }

  /** A node is one of the two children of its parent. */
  lemma ParentHasChild(y: nat, n: nat)
    requires n >= 1 && y < NodeWidth(n) && y != Root(n)
    ensures var p := ParentOf(y, n);
            p % 2 == 1 && p < NodeWidth(n) && y == if y < p then LeftOf(p) else Right(p, n)
  {
    hide First, Level, LeftOf, Right, ParentOf, Root, Within;
    ParentFacts(y, n);
    var p := ParentOf(y, n);
    BelowAChild(y, p, n);
    ChildrenPartition(p, n);
    var c := if y < p then LeftOf(p) else Right(p, n);
    if y != c {
      assert Within(p, c);
      Nested(p, c);
    }
  }

  lemma SiblingFacts(y: nat, n: nat)
    requires n >= 1 && y < NodeWidth(n) && y != Root(n)
    ensures var p, s := ParentOf(y, n), SiblingIn(y, n);
            && s < NodeWidth(n) && s != y && p % 2 == 1 && p < NodeWidth(n)
            && (y < p ==> y == LeftOf(p) && s == Right(p, n) && Last(y) + 1 == First(s))
            && (y > p ==> y == Right(p, n) && s == LeftOf(p) && Last(s) + 1 == First(y))
            && y != p
            && First(p) <= First(y) && First(p) <= First(s) && Last(y) <= Last(p) && Last(s) <= Last(p)
            && Level(s) < Level(p) && (y > p ==> Level(s) + 1 == Level(p))
  {
    hide First, Level, LeftOf, RightIn, ParentOf, Root;
    ParentFacts(y, n);
    ParentHasChild(y, n);
    var p := ParentOf(y, n);
    ChildrenPartition(p, n);
    LeftOfIs(p);
    RightInIs(p, NodeWidth(n));
  }

  /** A proper ancestor of a sibling is an ancestor of the parent. */
  lemma AboveSibling(y: nat, e: nat, n: nat)
    requires n >= 1 && y < NodeWidth(n) && y != Root(n) && e < NodeWidth(n)
    requires Within(SiblingIn(y, n), e) && e != SiblingIn(y, n)
    ensures Within(ParentOf(y, n), e)
  {
    hide First, Level, LeftOf, Right, ParentOf, Root, SiblingIn;
    var p, s := ParentOf(y, n), SiblingIn(y, n);
    SiblingFacts(y, n);
    Nested(s, e);
    NestedOrDisjoint(e, p);
    if Within(e, p) && e != p {
      Nested(e, p);
      BelowAChild(e, p, n);
      if Within(e, s) {
        Nested(e, s);
      } else {
        WithinTransitive(s, e, y);
      }
    }
  }

  // ---------------------------------------------------------------------------------------------
  // The working list: disjoint nodes, in order, that together hold every requested leaf.

  ghost predicate AreLeaves(requested: set<nat>, n: nat) {
    forall t | t in requested :: t < NodeWidth(n) && t % 2 == 0
  }

  ghost predicate AllTouched(work: seq<nat>, requested: set<nat>) {
    forall i | 0 <= i < |work| :: Touched(work[i], requested)
  }

  ghost predicate Apart(x: nat, y: nat) {
    Hi(x) < Lo(y)
  }

  ghost predicate InOrder(work: seq<nat>) {
    forall i, j | 0 <= i < j < |work| :: Apart(work[i], work[j])
  }

  ghost predicate Held(t: nat, work: seq<nat>) {
    exists i | 0 <= i < |work| :: Within(t, work[i])
  }

  ghost predicate Spread(work: seq<nat>, n: nat, requested: set<nat>) {
    && AllNodes(work, n)
    && AllTouched(work, requested)
    && InOrder(work)
    && forall t | t in requested :: Held(t, work)
  }

  /** The copaths of the listed nodes, one after another. */
  function CopathAll(work: seq<nat>, n: nat, requested: set<nat>): seq<nat>
    requires n >= 1 && AllNodes(work, n)
  {
    if work == [] then []
    else CopathOf(work[0], n, requested) + CopathAll(work[1..], n, requested)
  }

  lemma {:induction false} CopathAllConcat(a: seq<nat>, b: seq<nat>, n: nat, requested: set<nat>)
    requires n >= 1 && AllNodes(a, n) && AllNodes(b, n)
    ensures AllNodes(a + b, n)
    ensures CopathAll(a + b, n, requested) == CopathAll(a, n, requested) + CopathAll(b, n, requested)
    decreases |a|
  {
    hide CopathOf, NodeWidth;
    if a == [] {
      assert a + b == b;
    } else {
      assert (a + b)[1..] == a[1..] + b;
      CopathAllConcat(a[1..], b, n, requested);
    }
  }

  lemma ApartShareNothing(t: nat, x: nat, y: nat)
    requires Apart(x, y)
    ensures !(Within(t, x) && Within(t, y))
  {
    hide First;
  }

  /** Moving from y up to its parent keeps it apart from e, if no requested leaf is below both e and
  the sibling of y. */
  lemma StaysApart(e: nat, y: nat, n: nat, requested: set<nat>)
    requires n >= 1 && e < NodeWidth(n) && y < NodeWidth(n) && y != Root(n) && AreLeaves(requested, n)
    requires Touched(e, requested) && (Apart(e, y) || Apart(y, e))
    requires forall t | t in requested && Within(t, SiblingIn(y, n)) :: !Within(t, e)
    ensures Apart(e, y) ==> Apart(e, ParentOf(y, n))
    ensures Apart(y, e) ==> Apart(ParentOf(y, n), e)
  {
    hide First, Level, LeftOf, Right, ParentOf, Root, SiblingIn, NodeWidth;
    var p := ParentOf(y, n);
    SiblingFacts(y, n);
    NestedOrDisjoint(e, p);
    var t :| t in requested && Within(t, e);
    if Within(e, p) {
      WithinTransitive(t, e, p);
      BelowAChild(t, p, n);
    } else if Within(p, e) {
      Nested(p, e);
    }
  }

  lemma TouchedUp(y: nat, p: nat, requested: set<nat>)
    requires Touched(y, requested) && Within(y, p)
    ensures Touched(p, requested)
  {
    hide First;
    var t :| t in requested && Within(t, y);
    WithinTransitive(t, y, p);
  }

  lemma SiblingBelow(y: nat, n: nat)
    requires n >= 1 && y < NodeWidth(n) && y != Root(n)
    ensures Within(SiblingIn(y, n), ParentOf(y, n)) && Within(y, ParentOf(y, n))
  {
    hide First, Level, LeftOf, Right, ParentOf, Root, SiblingIn;
    SiblingFacts(y, n);
  }

  /** The next list entry is dropped when it is the sibling; otherwise the sibling holds nothing. */
  ghost predicate Joinable(y: nat, mid: seq<nat>, n: nat, requested: set<nat>)
    requires n >= 1 && y < NodeWidth(n) && y != Root(n)
  {
    if mid == [] then !Touched(SiblingIn(y, n), requested) else mid == [SiblingIn(y, n)]
  }

  lemma ReplaceApart(e: nat, y: nat, mid: seq<nat>, n: nat, requested: set<nat>)
    requires n >= 1 && AreLeaves(requested, n) && e < NodeWidth(n) && y < NodeWidth(n) && y != Root(n)
    requires Touched(e, requested) && (Apart(e, y) || Apart(y, e)) && Joinable(y, mid, n, requested)
    requires mid != [] ==> Apart(e, mid[0]) || Apart(mid[0], e)
    ensures Apart(e, y) ==> Apart(e, ParentOf(y, n))
    ensures Apart(y, e) ==> Apart(ParentOf(y, n), e)
  {
    hide First, Level, ParentOf, Root, SiblingIn, NodeWidth, Apart, Within;
    var s := SiblingIn(y, n);
    forall t | t in requested && Within(t, s)
      ensures !Within(t, e)
    {
      if mid != [] {
        if Apart(e, s) { ApartShareNothing(t, e, s); } else { ApartShareNothing(t, s, e); }
      }
    }
    StaysApart(e, y, n, requested);
  }

  lemma ReplaceHeld(t: nat, a: seq<nat>, y: nat, mid: seq<nat>, b: seq<nat>, n: nat)
    requires n >= 1 && y < NodeWidth(n) && y != Root(n) && (mid == [] || mid == [SiblingIn(y, n)])
    requires Held(t, a + [y] + mid + b)
    ensures Held(t, a + [ParentOf(y, n)] + b)
  {
    hide ParentOf, Root, SiblingIn, NodeWidth, Within;
    var before, after := a + [y] + mid + b, a + [ParentOf(y, n)] + b;
    var k :| 0 <= k < |before| && Within(t, before[k]);
    if k < |a| {
      assert after[k] == before[k];
    } else if k <= |a| + |mid| {
      assert before[k] == y || before[k] == SiblingIn(y, n);
      SiblingBelow(y, n);
      WithinTransitive(t, before[k], ParentOf(y, n));
      assert after[|a|] == ParentOf(y, n);
    } else {
      assert after[k - |mid|] == before[k];
    }
  }

  lemma ReplaceInOrder(a: seq<nat>, y: nat, mid: seq<nat>, b: seq<nat>, p: nat)
    requires InOrder(a + [y] + mid + b)
    requires forall i | 0 <= i < |a| :: Apart(a[i], p)
    requires forall i | 0 <= i < |b| :: Apart(p, b[i])
    ensures InOrder(a + [p] + b)
  {
    hide Apart;
    var before, after := a + [y] + mid + b, a + [p] + b;
    forall i, j | 0 <= i < j < |after|
      ensures Apart(after[i], after[j])
    {
      var i', j' := if i > |a| then i + |mid| else i, if j > |a| then j + |mid| else j;
      if i != |a| && j != |a| {
        assert after[i] == before[i'] && after[j] == before[j'];
      }
    }
  }

  /** Replacing y by its parent, and dropping the sibling when listed, keeps the list spread. */
  lemma ReplaceSpread(a: seq<nat>, y: nat, mid: seq<nat>, b: seq<nat>, n: nat, requested: set<nat>)
    requires n >= 1 && AreLeaves(requested, n) && Spread(a + [y] + mid + b, n, requested)
    requires y < NodeWidth(n) && y != Root(n) && Joinable(y, mid, n, requested)
    ensures Spread(a + [ParentOf(y, n)] + b, n, requested)
  {
    hide First, ParentOf, Root, SiblingIn, NodeWidth, Touched, Within, Apart, Held, AreLeaves, Level;
    var before, p := a + [y] + mid + b, ParentOf(y, n);
    assert before[|a|] == y;
    SiblingBelow(y, n);
    TouchedUp(y, p, requested);
    ParentFacts(y, n);
    forall i | 0 <= i < |a|
      ensures Apart(a[i], p) && Touched(a[i], requested) && a[i] < NodeWidth(n)
    {
      assert before[i] == a[i];
      if mid != [] { assert before[|a| + 1] == mid[0]; }
      ReplaceApart(a[i], y, mid, n, requested);
    }
    forall i | 0 <= i < |b|
      ensures Apart(p, b[i]) && Touched(b[i], requested) && b[i] < NodeWidth(n)
    {
      assert before[|a| + 1 + |mid| + i] == b[i];
      if mid != [] { assert before[|a| + 1] == mid[0]; }
      ReplaceApart(b[i], y, mid, n, requested);
    }
    ReplaceInOrder(a, y, mid, b, p);
    forall t | t in requested
      ensures Held(t, a + [p] + b)
    {
      ReplaceHeld(t, a, y, mid, b, n);
    }
  }

  lemma CopathOfParent(y: nat, n: nat, requested: set<nat>)
    requires n >= 1 && y < NodeWidth(n) && y != Root(n) && Touched(y, requested)
    ensures ParentOf(y, n) < NodeWidth(n) && SiblingIn(y, n) < NodeWidth(n)
    ensures multiset(CopathOf(ParentOf(y, n), n, requested))
            == multiset(CopathOf(y, n, requested)) + multiset(CopathOf(SiblingIn(y, n), n, requested))
  {
    hide First, Level, LeftOf, Right, ParentOf, Root, SiblingIn, NodeWidth, Touched;
    SiblingFacts(y, n);
    SiblingBelow(y, n);
    TouchedUp(y, ParentOf(y, n), requested);
  }

  /** The copath gathered for the list changes by exactly the fetched sibling. */
  lemma ReplaceCopath(a: seq<nat>, y: nat, mid: seq<nat>, b: seq<nat>, n: nat, requested: set<nat>)
    requires n >= 1 && AllNodes(a, n) && AllNodes(b, n) && AllNodes(mid, n) && y < NodeWidth(n) && y != Root(n)
    requires Touched(y, requested) && Joinable(y, mid, n, requested)
    ensures AllNodes(a + [ParentOf(y, n)] + b, n) && AllNodes(a + [y] + mid + b, n)
    ensures multiset(CopathAll(a + [ParentOf(y, n)] + b, n, requested))
            == multiset(CopathAll(a + [y] + mid + b, n, requested))
               + (if mid == [] then multiset{SiblingIn(y, n)} else multiset{})
  {
    hide First, Level, LeftOf, Right, ParentOf, Root, SiblingIn, NodeWidth, Touched, CopathAll;
    CopathOfParent(y, n, requested);
    var p, s := ParentOf(y, n), SiblingIn(y, n);
    CopathAllOne(p, n, requested);
    CopathAllOne(y, n, requested);
    CopathAllOne(s, n, requested);
    CopathAllConcat(a, [p], n, requested);
    CopathAllConcat(a + [p], b, n, requested);
    CopathAllConcat(a, [y], n, requested);
    CopathAllConcat(a + [y], mid, n, requested);
    CopathAllConcat(a + [y] + mid, b, n, requested);
    CopathAllNone(n, requested);
  }

  lemma CopathAllOne(x: nat, n: nat, requested: set<nat>)
    requires n >= 1 && x < NodeWidth(n)
    ensures CopathAll([x], n, requested) == CopathOf(x, n, requested)
  {
    hide CopathOf, NodeWidth;
    assert [x][1..] == [];
  }

  lemma CopathAllNone(n: nat, requested: set<nat>)
    requires n >= 1
    ensures CopathAll([], n, requested) == []
  {
  }

  // ---------------------------------------------------------------------------------------------
  // Why a sibling that is not next in the list holds no requested leaf.

  /** Nodes already moved up are one level above those waiting; the last waiting node may be lower,
  when its parent lies further up at the ragged right edge. */
  ghost predicate Levels(moved: seq<nat>, waiting: seq<nat>, l: nat, n: nat)
    requires n >= 1 && AllNodes(waiting, n)
  {
    && (forall i | 0 <= i < |moved| :: Level(moved[i]) == l + 1)
    && (forall i | 0 <= i < |waiting| - 1 :: Level(waiting[i]) == l)
    && (waiting != [] ==> LowEnough(waiting[|waiting| - 1], l, n))
  }

  ghost predicate LowEnough(z: nat, l: nat, n: nat)
    requires n >= 1 && z < NodeWidth(n)
  {
    Level(z) <= l && (z != Root(n) ==> l < Level(ParentOf(z, n)))
  }

  /** A node with another node to its right has its parent one level up. */
  lemma ParentOneUp(y: nat, z: nat, n: nat)
    requires n >= 1 && y < NodeWidth(n) && z < NodeWidth(n) && Apart(y, z)
    ensures y != Root(n) && Level(ParentOf(y, n)) == Level(y) + 1
  {
    hide First, Level, UpOf, TopOf;
    WidthFits(n);
    UpOfIs(y);
    ClimbStep(y, NodeWidth(n));
    UpBelowWidth(y, z, n);
  }

  lemma UpBelowWidth(y: nat, z: nat, n: nat)
    requires z < NodeWidth(n) && Apart(y, z)
    ensures UpOf(y) < NodeWidth(n)
  {
    hide First, Level, UpOf;
    UpOfIs(y);
  }

  /** A list entry that shares a requested leaf with the sibling of y is the sibling or lies below it. */
  lemma MeetsSibling(y: nat, e: nat, t: nat, n: nat)
    requires n >= 1 && y < NodeWidth(n) && y != Root(n) && e < NodeWidth(n)
    requires Within(t, SiblingIn(y, n)) && Within(t, e) && (Apart(e, y) || Apart(y, e))
    ensures Within(e, SiblingIn(y, n))
  {
    hide First, Level, ParentOf, Root, SiblingIn, NodeWidth;
    var s := SiblingIn(y, n);
    NestedOrDisjoint(e, s);
    if !Within(e, s) {
      AboveSibling(y, e, n);
      SiblingBelow(y, n);
      WithinTransitive(y, ParentOf(y, n), e);
    }
  }

  /** Nothing fits between a left child and its sibling. */
  lemma NextIsSibling(y: nat, f: nat, n: nat)
    requires n >= 1 && y < NodeWidth(n) && y != Root(n) && y < ParentOf(y, n)
    ensures !(Apart(y, f) && Apart(f, SiblingIn(y, n)))
  {
    hide First, Level, ParentOf, Root, SiblingIn, NodeWidth, LeftOf, Right;
    SiblingFacts(y, n);
  }

  /** An entry strictly below the sibling of y is too low to be listed, given where its parent is. */
  lemma NotBelowSibling(y: nat, e: nat, l: nat, n: nat)
    requires n >= 1 && y < NodeWidth(n) && y != Root(n) && e < NodeWidth(n) && Level(ParentOf(y, n)) == l + 1
    requires Within(e, SiblingIn(y, n)) && e != SiblingIn(y, n)
    ensures Level(e) < l && !LowEnough(e, l, n)
  {
    hide First, Level, ParentOf, Root, SiblingIn, NodeWidth, LeftOf, Right;
    var s := SiblingIn(y, n);
    SiblingFacts(y, n);
    Nested(e, s);
    if e != Root(n) {
      ParentFacts(e, n);
      if ParentOf(e, n) != s { Nested(ParentOf(e, n), s); }
    } else {
      RootIsTop(s, n);
    }
  }

  lemma RootIsTop(x: nat, n: nat)
    requires n >= 1 && x < NodeWidth(n)
    ensures Within(x, Root(n)) && Level(x) <= Level(Root(n))
  {
    hide First, Level, Root;
    WidthFits(n);
    if x != Root(n) { Nested(x, Root(n)); }
  }

  /** In the inner loop: either the next entry is the sibling of the first, or nothing requested is
  below the sibling. */
  lemma InnerJoinable(moved: seq<nat>, waiting: seq<nat>, l: nat, n: nat, requested: set<nat>)
    requires n >= 1 && AreLeaves(requested, n) && Spread(moved + waiting, n, requested)
    requires AllNodes(waiting, n) && Levels(moved, waiting, l, n) && |waiting| >= 2
    ensures var y := waiting[0];
            && y != Root(n) && Level(ParentOf(y, n)) == l + 1
            && ParentOf(y, n) % 2 == 1 && ParentOf(y, n) < NodeWidth(n)
            && Joinable(y, if Right(ParentOf(y, n), n) == waiting[1] then [waiting[1]] else [], n, requested)
  {
    hide First, Level, ParentOf, Root, SiblingIn, NodeWidth, Right, Within, Apart, LeftOf;
    var work, y := moved + waiting, waiting[0];
    var at := |moved|;
    assert work[at] == y && work[at + 1] == waiting[1];
    ParentOneUp(y, waiting[1], n);
    SiblingFacts(y, n);
    var s := SiblingIn(y, n);
    if Right(ParentOf(y, n), n) == waiting[1] {
      RightIsSibling(y, waiting[1], n);
    } else if Touched(s, requested) {
      var t :| t in requested && Within(t, s);
      assert Held(t, work);
      var k :| 0 <= k < |work| && Within(t, work[k]);
      InnerExcluded(moved, waiting, l, n, requested, t, k);
    }
  }

  lemma RightIsSibling(y: nat, z: nat, n: nat)
    requires n >= 1 && y < NodeWidth(n) && y != Root(n) && Apart(y, z)
    requires ParentOf(y, n) % 2 == 1 && ParentOf(y, n) < NodeWidth(n) && z == Right(ParentOf(y, n), n)
    ensures SiblingIn(y, n) == z
  {
    hide First, Level, ParentOf, Root, SiblingIn, NodeWidth, Right, LeftOf;
    SiblingFacts(y, n);
  }

  lemma InnerExcluded(moved: seq<nat>, waiting: seq<nat>, l: nat, n: nat, requested: set<nat>, t: nat, k: nat)
    requires n >= 1 && AreLeaves(requested, n) && Spread(moved + waiting, n, requested)
    requires AllNodes(waiting, n) && Levels(moved, waiting, l, n) && |waiting| >= 2
    requires waiting[0] != Root(n) && Level(ParentOf(waiting[0], n)) == l + 1
    requires ParentOf(waiting[0], n) % 2 == 1 && ParentOf(waiting[0], n) < NodeWidth(n)
    requires Right(ParentOf(waiting[0], n), n) != waiting[1]
    requires k < |moved + waiting| && Within(t, (moved + waiting)[k])
    ensures !Within(t, SiblingIn(waiting[0], n))
  {
    hide First, Level, ParentOf, Root, SiblingIn, NodeWidth, Right, Within, Apart, LeftOf;
    var work, y, at := moved + waiting, waiting[0], |moved|;
    var e, s := work[k], SiblingIn(y, n);
    assert work[at] == y && work[at + 1] == waiting[1];
    assert work[k] == if k < at then moved[k] else waiting[k - at];
    SiblingFacts(y, n);
    SiblingShareNothing(y, t, n);
    if k != at && Within(t, s) {
      MeetsSibling(y, e, t, n);
      if e != s {
        NotBelowSibling(y, e, l, n);
      } else if y < ParentOf(y, n) {
        NextIsSibling(y, waiting[1], n);
      } else {
        LeftSiblingBefore(y, e, n);
      }
    }
  }

  lemma SiblingShareNothing(y: nat, t: nat, n: nat)
    requires n >= 1 && y < NodeWidth(n) && y != Root(n)
    ensures !(Within(t, y) && Within(t, SiblingIn(y, n)))
  {
    hide First, Level, ParentOf, Root, SiblingIn, NodeWidth, Right, LeftOf;
    SiblingFacts(y, n);
  }

  lemma LeftSiblingBefore(y: nat, s: nat, n: nat)
    requires n >= 1 && y < NodeWidth(n) && y != Root(n) && s == SiblingIn(y, n) && y > ParentOf(y, n)
    ensures !Apart(y, s)
  {
    hide First, Level, ParentOf, Root, SiblingIn, NodeWidth, Right, LeftOf;
    SiblingFacts(y, n);
  }

  /** At the end of a level: the sibling of the last node holds nothing requested. */
  lemma LastJoinable(moved: seq<nat>, z: nat, l: nat, n: nat, requested: set<nat>)
    requires n >= 1 && AreLeaves(requested, n) && Spread(moved + [z], n, requested)
    requires z < NodeWidth(n) && z != Root(n)
    requires moved != [] ==> Level(ParentOf(z, n)) == l + 1
    requires forall i | 0 <= i < |moved| :: Level(moved[i]) == l + 1
    ensures Joinable(z, [], n, requested)
  {
    hide First, Level, ParentOf, Root, SiblingIn, NodeWidth, Right, Within, Apart, LeftOf;
    var work, s := moved + [z], SiblingIn(z, n);
    assert work[|moved|] == z;
    if Touched(s, requested) {
      var t :| t in requested && Within(t, s);
      assert Held(t, work);
      var k :| 0 <= k < |work| && Within(t, work[k]);
      if k == |moved| {
        SiblingShareNothing(z, t, n);
      } else {
        assert work[k] == moved[k];
        MeetsSibling(z, moved[k], t, n);
        SiblingFacts(z, n);
        if moved[k] != s { Nested(moved[k], s); }
      }
    }
  }

  // ---------------------------------------------------------------------------------------------
  // The algorithm.

  /** The state between two steps: nodes moved up this level, nodes waiting, copath gathered so far. */
  ghost predicate Progress(moved: seq<nat>, waiting: seq<nat>, out: seq<nat>, l: nat, n: nat, requested: set<nat>)
    requires n >= 1
  {
    && AreLeaves(requested, n) && AllNodes(moved + waiting, n) && AllNodes(waiting, n)
    && Spread(moved + waiting, n, requested) && Levels(moved, waiting, l, n)
    && multiset(out) == multiset(CopathAll(moved + waiting, n, requested))
  }

  lemma SplitNodes(a: seq<nat>, b: seq<nat>, n: nat)
    requires AllNodes(a + b, n)
    ensures AllNodes(a, n) && AllNodes(b, n)
  {
    hide NodeWidth;
    forall i | 0 <= i < |a|
      ensures a[i] < NodeWidth(n)
    {
      assert (a + b)[i] == a[i];
    }
    forall i | 0 <= i < |b|
      ensures b[i] < NodeWidth(n)
    {
      assert (a + b)[|a| + i] == b[i];
    }
  }

  /** One step: y = first waiting node goes up to its parent, together with mid when it is the sibling. */
  lemma StepUp(moved: seq<nat>, waiting: seq<nat>, mid: seq<nat>, rest: seq<nat>, out: seq<nat>,
               l: nat, n: nat, requested: set<nat>)
    requires n >= 1 && Progress(moved, waiting, out, l, n, requested)
    requires waiting != [] && waiting == [waiting[0]] + mid + rest
    requires waiting[0] != Root(n) && Joinable(waiting[0], mid, n, requested)
    ensures var p, s := ParentOf(waiting[0], n), SiblingIn(waiting[0], n);
            var out' := if mid == [] then out + [s] else out;
            && AllNodes(moved + [p] + rest, n) && Spread(moved + [p] + rest, n, requested)
            && multiset(out') == multiset(CopathAll(moved + [p] + rest, n, requested))
  {
    hide ParentOf, Root, SiblingIn, NodeWidth, CopathAll, Levels, Joinable, Touched, AreLeaves;
    var y := waiting[0];
    assert moved + waiting == moved + [y] + mid + rest;
    assert (moved + waiting)[|moved|] == y;
    SplitNodes(moved, waiting, n);
    SplitNodes([y] + mid, rest, n);
    SplitNodes([y], mid, n);
    ReplaceSpread(moved, y, mid, rest, n, requested);
    ReplaceCopath(moved, y, mid, rest, n, requested);
  }

  lemma InnerStep(moved: seq<nat>, waiting: seq<nat>, mid: seq<nat>, rest: seq<nat>, out: seq<nat>,
                  l: nat, n: nat, requested: set<nat>)
    requires n >= 1 && Progress(moved, waiting, out, l, n, requested) && |waiting| >= 2
    requires waiting == [waiting[0]] + mid + rest
    requires waiting[0] != Root(n) && Joinable(waiting[0], mid, n, requested)
    requires Level(ParentOf(waiting[0], n)) == l + 1
    ensures var p, s := ParentOf(waiting[0], n), SiblingIn(waiting[0], n);
            Progress(moved + [p], rest, if mid == [] then out + [s] else out, l, n, requested)
  {
    hide ParentOf, Root, SiblingIn, NodeWidth, CopathAll, Spread, Touched, AreLeaves, Level, LowEnough;
    StepUp(moved, waiting, mid, rest, out, l, n, requested);
    SplitNodes([waiting[0]] + mid, rest, n);
    assert forall i | 0 <= i < |rest| :: rest[i] == waiting[1 + |mid| + i];
  }

  lemma LevelOfParentAbove(p: nat, n: nat)
    requires n >= 1 && p < NodeWidth(n)
    ensures LowEnough(p, Level(p), n)
  {
    hide ParentOf, Root, Level;
    if p != Root(n) { ParentFacts(p, n); }
  }

  /** The last waiting node goes up; the next level starts. */
  lemma LastStep(moved: seq<nat>, z: nat, out: seq<nat>, l: nat, n: nat, requested: set<nat>) returns (l': nat)
    requires n >= 1 && Progress(moved, [z], out, l, n, requested) && z < NodeWidth(n) && z != Root(n)
    requires moved != [] ==> Level(ParentOf(z, n)) <= l + 1
    ensures l < l' <= Level(Root(n))
    ensures Progress([], moved + [ParentOf(z, n)], out + [SiblingIn(z, n)], l', n, requested)
  {
    hide ParentOf, Root, SiblingIn, NodeWidth, CopathAll, Spread, Touched, AreLeaves, Level, Joinable;
    var p := ParentOf(z, n);
    ParentFacts(z, n);
    l' := Level(p);
    assert [z][0] == z && LowEnough(z, l, n);
    LastJoinable(moved, z, l, n, requested);
    assert [z] == [z] + [] + [];
    StepUp(moved, [z], [], [], out, l, n, requested);
    assert moved + [p] + [] == moved + [p] == [] + (moved + [p]);
    LevelOfParentAbove(p, n);
  }

  /** The last waiting node stays, because its parent lies above the level just built. */
  lemma DeferStep(moved: seq<nat>, z: nat, out: seq<nat>, l: nat, n: nat, requested: set<nat>)
    requires n >= 1 && Progress(moved, [z], out, l, n, requested) && z < NodeWidth(n) && z != Root(n)
    requires moved != [] && Level(ParentOf(z, n)) > l + 1
    ensures l + 1 <= Level(Root(n))
    ensures Progress([], moved + [z], out, l + 1, n, requested)
  {
    hide ParentOf, Root, NodeWidth, CopathAll, Spread, AreLeaves, Level;
    assert [] + (moved + [z]) == moved + [z];
    assert [z][0] == z && LowEnough(z, l, n);
    ParentFacts(z, n);
  }

  /** All nodes have moved up; the next level starts. */
  lemma LevelDone(moved: seq<nat>, out: seq<nat>, l: nat, n: nat, requested: set<nat>)
    requires n >= 1 && Progress(moved, [], out, l, n, requested) && moved != []
    ensures l + 1 <= Level(Root(n))
    ensures Progress([], moved, out, l + 1, n, requested)
  {
    hide ParentOf, Root, NodeWidth, CopathAll, Spread, AreLeaves, Level;
    assert [] + moved == moved == moved + [];
    LevelOfParentAbove(moved[|moved| - 1], n);
    RootIsTop(moved[0], n);
  }

  lemma RootIsAlone(moved: seq<nat>, z: nat, n: nat, requested: set<nat>)
    requires n >= 1 && Spread(moved + [z], n, requested) && moved != []
    ensures z != Root(n)
  {
    hide First, Root, NodeWidth, AllTouched, Held;
    var work := moved + [z];
    assert work[0] == moved[0] && work[|moved|] == z;
    assert Apart(work[0], work[|moved|]);
    RootIsTop(moved[0], n);
    WidthFits(n);
  }

  /** Move every node of one level up, fetching missing siblings. */
  method MoveUp(nodes: seq<nat>, n: u64, gathered: seq<nat>, ghost l: nat, ghost requested: set<nat>)
    returns (moved: seq<nat>, out: seq<nat>, ghost l': nat)
    requires 1 <= n <= MAX_TREE_SIZE
    requires nodes != [] && nodes != [Root(n)] && Progress([], nodes, gathered, l, n, requested)
    ensures l < l' <= Level(Root(n)) && moved != []
    ensures Progress([], moved, out, l', n, requested)
  {
    hide ParentOf, Root, SiblingIn, NodeWidth, CopathAll, Spread, Touched, AreLeaves, Level, Joinable, Right, LowEnough,
         Levels;
    moved, out := [], gathered;
    var waiting := nodes;
    WidthIs(n);
    assert [] + nodes == nodes;
    while |waiting| > 1
      invariant Progress(moved, waiting, out, l, n, requested)
      invariant moved == [] ==> waiting == nodes
      invariant moved != [] || waiting != []
      decreases |waiting|
    {
      InnerJoinable(moved, waiting, l, n, requested);
      var y := waiting[0];
      var p := Parent(y, n);
      var right := RightChild(p, n);
      if right == waiting[1] {
        InnerStep(moved, waiting, [waiting[1]], waiting[2..], out, l, n, requested);
        waiting := waiting[2..];
      } else {
        InnerStep(moved, waiting, [], waiting[1..], out, l, n, requested);
        var s := Sibling(y, n);
        out := out + [s];
        waiting := waiting[1..];
      }
      moved := moved + [p];
    }
    l' := l + 1;
    if |waiting| == 1 {
      var z := waiting[0];
      assert waiting == [z];
      if moved != [] { RootIsAlone(moved, z, n, requested); }
      var p := Parent(z, n);
      LevelIsTrailingOnes(p);
      if moved != [] { MovedLevel(moved, waiting, l, n); }
      if moved != [] && TrailingOnes(p) > TrailingOnes(moved[0]) {
        DeferStep(moved, z, out, l, n, requested);
        moved := moved + [z];
      } else {
        l' := LastStep(moved, z, out, l, n, requested);
        var s := Sibling(z, n);
        out := out + [s];
        moved := moved + [p];
      }
    } else {
      assert waiting == [];
      LevelDone(moved, out, l, n, requested);
    }
  }

  lemma MovedLevel(moved: seq<nat>, waiting: seq<nat>, l: nat, n: nat)
    requires n >= 1 && AllNodes(waiting, n) && Levels(moved, waiting, l, n) && moved != []
    ensures TrailingOnes(moved[0]) == l + 1
  {
    hide Level, LowEnough, NodeWidth;
    LevelIsTrailingOnes(moved[0]);
  }

  /** The copath is increasing and stays below x. */
  lemma {:induction false} CopathIncreases(x: nat, n: nat, requested: set<nat>)
    requires n >= 1 && x < NodeWidth(n)
    ensures Increasing(CopathOf(x, n, requested))
    ensures forall y | y in CopathOf(x, n, requested) :: Within(y, x) && y < NodeWidth(n)
    decreases Level(x)
  {
    hide First, Level, LeftOf, Right, Touched, NodeWidth;
    if Touched(x, requested) && x % 2 == 1 {
      var l, r := LeftOf(x), Right(x, n);
      ChildrenPartition(x, n);
      CopathIncreases(l, n, requested);
      CopathIncreases(r, n, requested);
      IncreasesAcross(CopathOf(l, n, requested), CopathOf(r, n, requested), x, n);
    }
  }

  lemma IncreasesAcross(a: seq<nat>, b: seq<nat>, x: nat, n: nat)
    requires n >= 1 && x < NodeWidth(n) && x % 2 == 1 && Increasing(a) && Increasing(b)
    requires forall y | y in a :: Within(y, LeftOf(x))
    requires forall y | y in b :: Within(y, Right(x, n))
    ensures Increasing(a + b) && forall y | y in a + b :: Within(y, x)
  {
    hide First, Level, LeftOf, RightIn, NodeWidth;
    ChildrenPartition(x, n);
    LeftOfIs(x);
    RightInIs(x, NodeWidth(n));
    forall i | 0 <= i < |a|
      ensures a[i] < x
    {
      assert a[i] in a;
    }
    forall i | 0 <= i < |b|
      ensures b[i] > x
    {
      assert b[i] in b;
    }
  }

  function NodesOf(leaves: seq<nat>): (nodes: seq<nat>)
    ensures |nodes| == |leaves|
    ensures forall i | 0 <= i < |leaves| :: nodes[i] == 2 * leaves[i]
  {
    seq(|leaves|, i requires 0 <= i < |leaves| => 2 * leaves[i])
  }

  function ToSet(s: seq<nat>): set<nat> {
    set x | x in s
  }

  predicate Distinct(s: seq<nat>) {
    forall i, j | 0 <= i < j < |s| :: s[i] != s[j]
  }

  lemma SortDistinct(s: seq<nat>)
    requires Distinct(s)
    ensures Increasing(Sort(s)) && ToSet(Sort(s)) == ToSet(s) && |Sort(s)| == |s|
  {
    SortByIs(s, (x: nat) => x);
    var t := Sort(s);
    forall x
      ensures x in t <==> x in s
    {
      assert x in t <==> x in multiset(t);
      assert x in s <==> x in multiset(s);
    }
    forall i, j | 0 <= i < j < |t|
      ensures t[i] < t[j]
    {
      if t[i] == t[j] {
        OccursTwice(t, i, j);
        DistinctOnce(s, t[i]);
      }
    }
  }

  lemma OccursTwice(t: seq<nat>, i: nat, j: nat)
    requires i < j < |t| && t[i] == t[j]
    ensures multiset(t)[t[i]] >= 2
  {
    var x := t[i];
    assert t == t[..i] + [x] + t[i + 1..j] + [x] + t[j + 1..];
  }

  lemma {:induction false} DistinctOnce(s: seq<nat>, x: nat)
    requires Distinct(s)
    ensures multiset(s)[x] <= 1
  {
    if s != [] {
      DistinctOnce(s[1..], x);
      assert s == [s[0]] + s[1..];
      if x == s[0] { assert x !in s[1..]; }
    }
  }

  lemma StartSpread(nodes: seq<nat>, n: nat, requested: set<nat>)
    requires n >= 1 && Increasing(nodes) && requested == ToSet(nodes)
    requires forall i | 0 <= i < |nodes| :: nodes[i] < NodeWidth(n) && nodes[i] % 2 == 0
    ensures Spread(nodes, n, requested)
  {
    hide First, NodeWidth;
    forall i | 0 <= i < |nodes|
      ensures Lo(nodes[i]) == nodes[i] == Hi(nodes[i]) && Touched(nodes[i], requested)
    {
      Leaf(nodes[i]);
      assert nodes[i] in requested;
      assert Within(nodes[i], nodes[i]);
    }
    forall t | t in requested
      ensures Held(t, nodes)
    {
      var i :| 0 <= i < |nodes| && nodes[i] == t;
      assert Within(t, nodes[i]);
    }
  }

  lemma StartLevels(nodes: seq<nat>, n: nat)
    requires n >= 1 && nodes != []
    requires forall i | 0 <= i < |nodes| :: nodes[i] < NodeWidth(n) && nodes[i] % 2 == 0
    ensures Levels([], nodes, 0, n)
  {
    hide First, Level, LowEnough, NodeWidth;
    forall i | 0 <= i < |nodes|
      ensures Level(nodes[i]) == 0
    {
      Leaf(nodes[i]);
    }
    LevelOfParentAbove(nodes[|nodes| - 1], n);
  }

  /** At the start the listed nodes are the requested leaves, and nothing has been gathered. */
  lemma StartProgress(nodes: seq<nat>, n: nat, requested: set<nat>)
    requires n >= 1 && nodes != [] && Increasing(nodes) && requested == ToSet(nodes)
    requires forall i | 0 <= i < |nodes| :: nodes[i] < NodeWidth(n) && nodes[i] % 2 == 0
    ensures Progress([], nodes, [], 0, n, requested)
  {
    hide NodeWidth, CopathAll, Levels, InOrder, Touched, Held;
    assert [] + nodes == nodes;
    StartSpread(nodes, n, requested);
    StartLevels(nodes, n);
    LeafCopaths(nodes, n, requested);
  }

  lemma {:induction false} LeafCopaths(nodes: seq<nat>, n: nat, requested: set<nat>)
    requires n >= 1 && AllNodes(nodes, n) && forall i | 0 <= i < |nodes| :: nodes[i] % 2 == 0 && Touched(nodes[i], requested)
    ensures CopathAll(nodes, n, requested) == []
  {
    hide NodeWidth, Touched;
    if nodes != [] { LeafCopaths(nodes[1..], n, requested); }
  }

  lemma EndProgress(n: nat, out: seq<nat>, l: nat, requested: set<nat>)
    requires n >= 1 && Progress([], [Root(n)], out, l, n, requested)
    ensures Root(n) < NodeWidth(n) && Sort(out) == CopathOf(Root(n), n, requested)
  {
    hide Root, NodeWidth, Spread, Levels, AreLeaves, CopathOf, Sort;
    WidthFits(n);
    assert [] + [Root(n)] == [Root(n)];
    CopathAllOne(Root(n), n, requested);
    CopathIncreases(Root(n), n, requested);
    SortOfPermuted(CopathOf(Root(n), n, requested), out);
  }

  function Copath(leaves: seq<nat>, n: nat): seq<nat>
    requires n >= 1
  {
    WidthFits(n);
    CopathOf(Root(n), n, ToSet(NodesOf(leaves)))
  }

  /** For any non-empty list of distinct leaves the algorithm terminates, asks for no parent of the
  root, and returns exactly the maximal subtrees that avoid the leaves, in order. */
  method ComputeCopath(leaves: seq<u64>, n: u64) returns (out: seq<nat>)
    requires 1 <= n <= MAX_TREE_SIZE
    requires leaves != [] && Distinct(leaves) && forall i | 0 <= i < |leaves| :: leaves[i] < n
    ensures out == Copath(leaves, n)
  {
    hide Root, NodeWidth, Progress, CopathOf, Sort, NodesOf, Level;
    ghost var requested := ToSet(NodesOf(leaves));
    var nodes := Sort(NodesOf(leaves));
    SortDistinct(NodesOf(leaves));
    WidthIs(n);
    assert forall i | 0 <= i < |nodes| :: nodes[i] in ToSet(nodes);
    StartProgress(nodes, n, requested);
    out := [];
    ghost var l := 0;
    while !(|nodes| == 1 && nodes[0] == Root(n))
      invariant nodes != [] && Progress([], nodes, out, l, n, requested)
      decreases Level(Root(n)) - l
    {
      nodes, out, l := MoveUp(nodes, n, out, l, requested);
    }
    assert nodes == [Root(n)];
    EndProgress(n, out, l, requested);
    out := Sort(out);
  }
}
