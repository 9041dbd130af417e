/** `evaluate_batch_proof`: inclusion of a batch of leaves, exactly. */
module BatchProof {
  import opened Wrappers
  import opened Bits
  import opened Geometry
  import opened LeftBalanced
  import opened BoundedTree
  import opened Hashes
  import opened Merkle
  import opened Calculator
  import opened LogTree
  import opened Sorting
  import opened BatchCopath
  import opened ConsistencyProof

  // ---------------------------------------------------------------------------------------------
  // The copath and the requested leaves together cover the log.

  lemma {:induction false} CoverTiles(x: nat, n: nat, requested: set<nat>)
    requires n >= 1 && x < NodeWidth(n)
    ensures Tiles(CoverOf(x, n, requested), First(x), Stop(x, n), n)
    decreases Level(x)
  {
    hide First, Level, LeftOf, Right, Touched, NodeWidth, Tiles;
    if !Touched(x, requested) || x % 2 == 0 {
      TilesOne(x, n);
    } else {
      var l, r := LeftOf(x), Right(x, n);
      ChildrenPartition(x, n);
      CoverTiles(l, n, requested);
      CoverTiles(r, n, requested);
      TilesAppend(CoverOf(l, n, requested), CoverOf(r, n, requested), First(x), First(r), Stop(x, n), n);
    }
  }

  /** A node of the cover is a copath node or a requested leaf. */
  lemma {:induction false} CoverMembers(x: nat, n: nat, requested: set<nat>, y: nat)
    requires n >= 1 && x < NodeWidth(n) && AreLeaves(requested, n)
    ensures y in CoverOf(x, n, requested) <==>
              y in CopathOf(x, n, requested) || (y in requested && Within(y, x))
    decreases Level(x)
  {
    hide First, Level, LeftOf, Right, Touched, NodeWidth, Within;
    if !Touched(x, requested) {
      UntouchedHoldsNone(x, requested, y);
    } else if x % 2 == 0 {
      LeafHolds(x, requested, y);
    } else {
      ChildrenPartition(x, n);
      CoverMembers(LeftOf(x), n, requested, y);
      CoverMembers(Right(x, n), n, requested, y);
      if y in requested { SplitMember(y, x, n); }
    }
  }

  lemma UntouchedHoldsNone(x: nat, requested: set<nat>, y: nat)
    requires !Touched(x, requested)
    ensures !(y in requested && Within(y, x))
  {
  }

  lemma LeafHolds(x: nat, requested: set<nat>, y: nat)
    requires x % 2 == 0 && Touched(x, requested)
    ensures y == x <==> y in requested && Within(y, x)
  {
    hide First;
    Leaf(x);
  }

  lemma SplitMember(y: nat, x: nat, n: nat)
    requires n >= 1 && x < NodeWidth(n) && x % 2 == 1 && y < NodeWidth(n) && y % 2 == 0
    ensures Within(y, x) <==> Within(y, LeftOf(x)) || Within(y, Right(x, n))
  {
    hide First, Level, LeftOf, RightIn;
    ChildrenPartition(x, n);
    LeftOfIs(x);
    RightInIs(x, NodeWidth(n));
    if Within(y, x) { BelowAChild(y, x, n); }
  }

  lemma {:induction false} CopathAvoids(x: nat, n: nat, requested: set<nat>, y: nat)
    requires n >= 1 && x < NodeWidth(n) && y in CopathOf(x, n, requested)
    ensures !Touched(y, requested)
    decreases Level(x)
  {
    hide First, Level, LeftOf, Right, Touched, NodeWidth;
    if Touched(x, requested) && x % 2 == 1 {
      ChildrenPartition(x, n);
      if y in CopathOf(LeftOf(x), n, requested) {
        CopathAvoids(LeftOf(x), n, requested, y);
      } else {
        CopathAvoids(Right(x, n), n, requested, y);
      }
    }
  }

  /** The copath is exact: its nodes are distinct, every leaf that was not requested lies below exactly
  one of them, and no requested leaf lies below any. */
  lemma CopathPartitions(x: seq<nat>, n: nat, leaf: nat)
    requires n >= 1 && leaf < n && forall i | 0 <= i < |x| :: x[i] < n
    ensures Increasing(Copath(x, n))
    ensures leaf in x ==> forall c | c in Copath(x, n) :: !Within(2 * leaf, c)
    ensures leaf !in x ==> exists c :: IsOnlyOneOver(c, leaf, Copath(x, n))
  {
    hide First, Root, NodeWidth, CopathOf, CoverOf, Tiles, Within;
    WidthFits(n);
    WidthIs(n);
    var requested, copath := ToSet(NodesOf(x)), Copath(x, n);
    var cover := CoverOf(Root(n), n, requested);
    CopathIncreases(Root(n), n, requested);
    RequestedIff(x, n, leaf);
    if leaf in x {
      forall c | c in copath
        ensures !Within(2 * leaf, c)
      {
        CopathAvoids(Root(n), n, requested, c);
      }
    } else {
      CoverTiles(Root(n), n, requested);
      RootSpan(n);
      var i := TileHolding(cover, 0, n, n, leaf);
      CoverMembers(Root(n), n, requested, cover[i]);
      if cover[i] in requested { LeafUnder(2 * leaf, cover[i]); }
      forall c | c in copath && Within(2 * leaf, c)
        ensures c == cover[i]
      {
        CoverMembers(Root(n), n, requested, c);
        var j :| 0 <= j < |cover| && cover[j] == c;
      }
      assert IsOnlyOneOver(cover[i], leaf, copath);
    }
  }

  /** c is the one node of the list above the leaf. */
  ghost predicate IsOnlyOneOver(c: nat, leaf: nat, ids: seq<nat>) {
    c in ids && Within(2 * leaf, c) && forall d | d in ids && Within(2 * leaf, d) :: d == c
  }

  lemma RequestedIff(x: seq<nat>, n: nat, leaf: nat)
    requires n >= 1 && forall i | 0 <= i < |x| :: x[i] < n
    ensures AreLeaves(ToSet(NodesOf(x)), n)
    ensures leaf in x <==> 2 * leaf in ToSet(NodesOf(x))
    ensures forall t | t in ToSet(NodesOf(x)) :: t % 2 == 0
  {
    hide First;
    WidthIs(n);
    if leaf in x {
      var i :| 0 <= i < |x| && x[i] == leaf;
      assert NodesOf(x)[i] == 2 * leaf;
    }
  }

  lemma LeafUnder(y: nat, leaf: nat)
    requires leaf % 2 == 0 && Within(y, leaf)
    ensures y == leaf
  {
    hide First;
    Leaf(leaf);
  }

  // ---------------------------------------------------------------------------------------------
  // Merging.

  /** Two lists of nodes merged by node id. */
  function Merge(xs: seq<Item>, ys: seq<Item>): seq<Item>
    decreases |xs| + |ys|
  {
    if xs == [] && ys == [] then []
    else if xs != [] && (ys == [] || xs[0].id < ys[0].id) then [xs[0]] + Merge(xs[1..], ys)
    else [ys[0]] + Merge(xs, ys[1..])
  }

  function Ids(items: seq<Item>): (ids: seq<nat>)
    ensures |ids| == |items| && forall i | 0 <= i < |items| :: ids[i] == items[i].id
  {
    seq(|items|, i requires 0 <= i < |items| => items[i].id)
  }

  function Values(items: seq<Item>): (vals: seq<Hash>)
    ensures |vals| == |items| && forall i | 0 <= i < |items| :: vals[i] == items[i].value
  {
    seq(|items|, i requires 0 <= i < |items| => items[i].value)
  }

  lemma {:induction false} MergeMembers(xs: seq<Item>, ys: seq<Item>, item: Item)
    ensures item in Merge(xs, ys) <==> item in xs || item in ys
    decreases |xs| + |ys|
  {
    if xs == [] && ys == [] {
    } else if xs != [] && (ys == [] || xs[0].id < ys[0].id) {
      assert xs == [xs[0]] + xs[1..];
      MergeMembers(xs[1..], ys, item);
    } else {
      assert ys == [ys[0]] + ys[1..];
      MergeMembers(xs, ys[1..], item);
    }
  }

  ghost predicate Ordered(items: seq<Item>) {
    forall i, j | 0 <= i < j < |items| :: items[i].id < items[j].id
  }

  ghost predicate Separate(xs: seq<Item>, ys: seq<Item>) {
    forall i, j | 0 <= i < |xs| && 0 <= j < |ys| :: xs[i].id != ys[j].id
  }

  lemma OrderedCons(x: Item, items: seq<Item>)
    requires Ordered(items) && forall item | item in items :: x.id < item.id
    ensures Ordered([x] + items)
  {
  }

  /** The smaller head comes before everything else. */
  lemma HeadIsLeast(xs: seq<Item>, ys: seq<Item>, item: Item)
    requires Ordered(xs) && Ordered(ys) && Separate(xs, ys) && xs != []
    requires ys == [] || xs[0].id < ys[0].id
    requires item in xs[1..] || item in ys
    ensures xs[0].id < item.id
  {
    if item in xs[1..] {
      var i :| 0 <= i < |xs[1..]| && xs[1..][i] == item;
      assert xs[i + 1] == item;
    }
  }

  lemma OrderedTail(xs: seq<Item>, ys: seq<Item>)
    requires Ordered(xs) && Separate(xs, ys) && xs != []
    ensures Ordered(xs[1..]) && Separate(xs[1..], ys) && Separate(ys, xs)
  {
  }

  lemma {:induction false} MergeOrdered(xs: seq<Item>, ys: seq<Item>)
    requires Ordered(xs) && Ordered(ys) && Separate(xs, ys)
    ensures Ordered(Merge(xs, ys))
    decreases |xs| + |ys|
  {
    hide Ordered, Separate;
    if xs == [] && ys == [] {
      OrderedNone();
    } else if xs != [] && (ys == [] || xs[0].id < ys[0].id) {
      OrderedTail(xs, ys);
      MergeOrdered(xs[1..], ys);
      forall item | item in Merge(xs[1..], ys)
        ensures xs[0].id < item.id
      {
        MergeMembers(xs[1..], ys, item);
        HeadIsLeast(xs, ys, item);
      }
      OrderedCons(xs[0], Merge(xs[1..], ys));
    } else {
      SeparateFlips(xs, ys);
      if xs != [] { HeadsDiffer(xs, ys); }
      OrderedTail(ys, xs);
      SeparateFlips(ys[1..], xs);
      MergeOrdered(xs, ys[1..]);
      forall item | item in Merge(xs, ys[1..])
        ensures ys[0].id < item.id
      {
        MergeMembers(xs, ys[1..], item);
        HeadIsLeast(ys, xs, item);
      }
      OrderedCons(ys[0], Merge(xs, ys[1..]));
    }
  }

  lemma OrderedNone()
    ensures Ordered([])
  {
  }

  lemma SeparateFlips(xs: seq<Item>, ys: seq<Item>)
    requires Separate(xs, ys)
    ensures Separate(ys, xs)
  {
  }

  lemma HeadsDiffer(xs: seq<Item>, ys: seq<Item>)
    requires Separate(xs, ys) && xs != [] && ys != []
    ensures xs[0].id != ys[0].id
  {
  }

  // ---------------------------------------------------------------------------------------------
  // The evaluator.

  /** The nodes inserted for a batch: requested leaves and copath, merged in order. */
  function BatchItems(x: seq<nat>, values: seq<Hash>, copath: seq<nat>, proof: seq<Hash>): seq<Item>
    requires |x| == |values| && |copath| == |proof|
  {
    Merge(Zip(NodesOf(x), values), Zip(copath, proof))
  }

  predicate IncreasingNeighbours(x: seq<nat>) {
    forall i | 0 <= i < |x| - 1 :: x[i] < x[i + 1]
  }

  /** The root that would make the proof valid for the given values. */
  function EvaluateBatch(x: seq<nat>, n: nat, values: seq<Hash>, proof: seq<Hash>): LogResult<Hash> {
    if |x| != |values| then Err(InvalidInput)
    else if !IncreasingNeighbours(x) then Err(InvalidInput)
    else if x == [] then Err(InvalidInput)
    else if x[|x| - 1] >= n then Err(InvalidInput)
    else
      var copath := Copath(x, n);
      if |proof| != |copath| then Err(MalformedProof)
      else RootResult(InsertAll([], BatchItems(x, values, copath, proof)))
  }

  lemma {:induction false} NeighboursIncrease(x: seq<nat>)
    requires IncreasingNeighbours(x)
    ensures Increasing(x)
    decreases |x|
  {
    if |x| >= 2 {
      NeighboursIncrease(x[1..]);
      assert x[0] < x[1] == x[1..][0];
      forall j | 1 <= j < |x|
        ensures x[0] < x[j]
      {
        assert x[j] == x[1..][j - 1];
      }
    }
  }

  lemma {:induction false} MergeStep(xs: seq<Item>, ys: seq<Item>, i: nat, j: nat)
    requires i <= |xs| && j <= |ys|
    ensures i < |xs| && (j == |ys| || xs[i].id < ys[j].id) ==>
              Merge(xs[i..], ys[j..]) == [xs[i]] + Merge(xs[i + 1..], ys[j..])
    ensures j < |ys| && (i == |xs| || xs[i].id >= ys[j].id) ==>
              Merge(xs[i..], ys[j..]) == [ys[j]] + Merge(xs[i..], ys[j + 1..])
    ensures i == |xs| && j == |ys| ==> Merge(xs[i..], ys[j..]) == []
  {
    if i < |xs| { assert xs[i..][1..] == xs[i + 1..]; }
    if j < |ys| { assert ys[j..][1..] == ys[j + 1..]; }
  }

  lemma InsertNext(chain: Chain, item: Item, rest: seq<Item>)
    ensures InsertAll(chain, [item] + rest)
            == InsertAll(InsertAt(chain, TrailingOnes(item.id), NodeData(TrailingOnes(item.id) != 0, item.value)), rest)
  {
    hide InsertAt, Level;
    LevelIsTrailingOnes(item.id);
    assert ([item] + rest)[1..] == rest;
  }

  method EvaluateBatchProof(x: seq<u64>, n: u64, values: seq<Hash>, proof: seq<Hash>) returns (r: LogResult<Hash>)
    requires n <= MAX_TREE_SIZE
    ensures r == EvaluateBatch(x, n, values, proof)
  {
    hide InsertAt, Level, RootResult, CopathOf, Copath, InsertAll, Zip, Merge;
    if |x| != |values| {
      return Err(InvalidInput);
    }
    if exists i | 0 <= i < |x| - 1 :: x[i] >= x[i + 1] {
      return Err(InvalidInput);
    }
    if x == [] {
      return Err(InvalidInput);
    }
    if x[|x| - 1] >= n {
      return Err(InvalidInput);
    }
    NeighboursIncrease(x);
    var copath := ComputeCopath(x, n);
    if |proof| != |copath| {
      return Err(MalformedProof);
    }
    ghost var xs, ys := Zip(NodesOf(x), values), Zip(copath, proof);
    ghost var goal := InsertAll([], Merge(xs, ys));
    var counter := new SimpleRootCalculator();
    var i, j := 0, 0;
    assert xs[0..] == xs && ys[0..] == ys;
    while i < |x| && j < |copath|
      invariant i <= |x| && j <= |copath|
      invariant InsertAll(counter.chain, Merge(xs[i..], ys[j..])) == goal
      decreases |x| + |copath| - i - j
    {
      MergeStep(xs, ys, i, j);
      if 2 * x[i] < copath[j] {
        InsertNext(counter.chain, xs[i], Merge(xs[i + 1..], ys[j..]));
        LeafOnes(2 * x[i]);
        counter.Insert(0, values[i]);
        i := i + 1;
      } else {
        InsertNext(counter.chain, ys[j], Merge(xs[i..], ys[j + 1..]));
        counter.Insert(TrailingOnes(copath[j]), proof[j]);
        j := j + 1;
      }
    }
    while i < |x|
      invariant i <= |x| && j <= |copath| && (i < |x| ==> j == |copath|)
      invariant InsertAll(counter.chain, Merge(xs[i..], ys[j..])) == goal
    {
      MergeStep(xs, ys, i, j);
      InsertNext(counter.chain, xs[i], Merge(xs[i + 1..], ys[j..]));
      LeafOnes(2 * x[i]);
      counter.Insert(0, values[i]);
      i := i + 1;
    }
    while j < |copath|
      invariant i == |x| && j <= |copath|
      invariant InsertAll(counter.chain, Merge(xs[i..], ys[j..])) == goal
    {
      MergeStep(xs, ys, i, j);
      InsertNext(counter.chain, ys[j], Merge(xs[i..], ys[j + 1..]));
      counter.Insert(TrailingOnes(copath[j]), proof[j]);
      j := j + 1;
    }
    MergeStep(xs, ys, i, j);
    InsertNone(counter.chain);
    r := counter.Root();
  }

  lemma InsertNone(chain: Chain)
    ensures InsertAll(chain, []) == chain
  {
  }

  lemma LeafOnes(x: nat)
    requires x % 2 == 0
    ensures TrailingOnes(x) == 0
  {
  }

  // ---------------------------------------------------------------------------------------------
  // What a matching root means.

  /** The inserted nodes are exactly the cover of the log by copath and requested leaves. */
  lemma BatchIdsAreCover(x: seq<nat>, n: nat, values: seq<Hash>, proof: seq<Hash>)
    requires n >= 1 && Increasing(x) && |x| == |values| && forall i | 0 <= i < |x| :: x[i] < n
    requires |proof| == |Copath(x, n)|
    ensures Root(n) < NodeWidth(n)
    ensures Ids(BatchItems(x, values, Copath(x, n), proof)) == CoverOf(Root(n), n, ToSet(NodesOf(x)))
  {
    hide Root, NodeWidth, CopathOf, CoverOf, Merge, Within, Touched;
    WidthFits(n);
    WidthIs(n);
    var requested, copath := ToSet(NodesOf(x)), Copath(x, n);
    var xs, ys := Zip(NodesOf(x), values), Zip(copath, proof);
    CopathIncreases(Root(n), n, requested);
    forall i, j | 0 <= i < |xs| && 0 <= j < |ys|
      ensures xs[i].id != ys[j].id
    {
      assert NodesOf(x)[i] in requested && copath[j] in copath;
      CopathAvoids(Root(n), n, requested, copath[j]);
      WithinSelf(NodesOf(x)[i], requested);
    }
    MergeOrdered(xs, ys);
    var ids, cover := Ids(Merge(xs, ys)), CoverOf(Root(n), n, requested);
    CoverTiles(Root(n), n, requested);
    RootSpan(n);
    TilesIncrease(cover, First(Root(n)), Stop(Root(n), n), n);
    forall y
      ensures y in ids <==> y in cover
    {
      if y >= 0 {
        MergedIds(xs, ys, y);
        CoverMembers(Root(n), n, requested, y);
        if y in requested { InRoot(y, n); }
        ZipMembers(NodesOf(x), values, y);
        ZipMembers(copath, proof, y);
      }
    }
    SameElementsSame(ids, cover);
  }

  lemma WithinSelf(y: nat, requested: set<nat>)
    requires y in requested
    ensures Touched(y, requested)
  {
    hide First;
    assert Within(y, y);
  }

  lemma RootSpan(n: nat)
    requires n >= 1
    ensures First(Root(n)) == 0 && Stop(Root(n), n) == n
  {
    hide First, Root;
    WidthFits(n);
  }

  lemma InRoot(y: nat, n: nat)
    requires n >= 1 && y < NodeWidth(n)
    ensures Within(y, Root(n))
  {
    hide First, Root;
    WidthFits(n);
  }

  lemma ZipMembers(ids: seq<nat>, values: seq<Hash>, y: nat)
    requires |ids| == |values|
    ensures (exists item | item in Zip(ids, values) :: item.id == y) <==> y in ids
  {
    if y in ids {
      var i :| 0 <= i < |ids| && ids[i] == y;
      assert Zip(ids, values)[i] in Zip(ids, values);
    }
  }

  lemma MergedIds(xs: seq<Item>, ys: seq<Item>, y: nat)
    ensures y in Ids(Merge(xs, ys)) <==>
              (exists item | item in xs :: item.id == y) || (exists item | item in ys :: item.id == y)
  {
    hide Merge;
    var m := Merge(xs, ys);
    if y in Ids(m) {
      var i :| 0 <= i < |m| && m[i].id == y;
      MergeMembers(xs, ys, m[i]);
    }
    if item :| (item in xs || item in ys) && item.id == y {
      MergeMembers(xs, ys, item);
      var i :| 0 <= i < |m| && m[i] == item;
      assert Ids(m)[i] == y;
    }
  }

  ghost predicate AllHonest(items: seq<Item>, log: seq<Hash>) {
    forall item | item in items :: item.id < NodeWidth(|log|) && item.value == HonestHash(item.id, log)
  }

  lemma MergeHonest(xs: seq<Item>, ys: seq<Item>, log: seq<Hash>)
    ensures AllHonest(Merge(xs, ys), log) <==> AllHonest(xs, log) && AllHonest(ys, log)
  {
    hide Merge, HonestHash, NodeWidth;
    forall item: Item
      ensures item in Merge(xs, ys) <==> item in xs || item in ys
    {
      MergeMembers(xs, ys, item);
    }
  }

  lemma ZipHonest(ids: seq<nat>, values: seq<Hash>, log: seq<Hash>)
    requires |ids| == |values| && AllNodes(ids, |log|)
    ensures AllHonest(Zip(ids, values), log) <==> values == HonestValues(ids, log)
  {
    hide HonestHash, NodeWidth;
    var z := Zip(ids, values);
    if AllHonest(z, log) {
      forall i | 0 <= i < |ids|
        ensures values[i] == HonestValues(ids, log)[i]
      {
        assert z[i] in z;
      }
    }
  }

  lemma ItemsAreZip(items: seq<Item>)
    ensures items == Zip(Ids(items), Values(items))
  {
  }

  /** The log entries at the requested positions. */
  function Selected(x: seq<nat>, log: seq<Hash>): (values: seq<Hash>)
    requires forall i | 0 <= i < |x| :: x[i] < |log|
    ensures |values| == |x| && forall i | 0 <= i < |x| :: values[i] == log[x[i]]
  {
    seq(|x|, i requires 0 <= i < |x| => log[x[i]])
  }

  lemma HonestLeaf(e: nat, log: seq<Hash>)
    requires e < |log|
    ensures 2 * e < NodeWidth(|log|) && HonestHash(2 * e, log) == log[e]
  {
    hide First;
    LeafAt(e);
    assert Part(2 * e, log) == [log[e]];
  }

  lemma HonestLeaves(x: seq<nat>, log: seq<Hash>)
    requires forall i | 0 <= i < |x| :: x[i] < |log|
    ensures AllNodes(NodesOf(x), |log|) && HonestValues(NodesOf(x), log) == Selected(x, log)
  {
    hide HonestHash, NodeWidth;
    forall i | 0 <= i < |x|
      ensures NodesOf(x)[i] < NodeWidth(|log|) && HonestHash(NodesOf(x)[i], log) == log[x[i]]
    {
      HonestLeaf(x[i], log);
    }
  }

  predicate WellFormed(x: seq<nat>, n: nat, values: seq<Hash>, proof: seq<Hash>) {
    && |x| == |values| && IncreasingNeighbours(x) && x != [] && x[|x| - 1] < n
    && |proof| == |Copath(x, n)|
  }

  lemma WellFormedBelow(x: seq<nat>, n: nat)
    requires x != [] && x[|x| - 1] < n && IncreasingNeighbours(x)
    ensures n >= 1 && Increasing(x) && forall i | 0 <= i < |x| :: x[i] < n
  {
    NeighboursIncrease(x);
  }

  lemma CopathAreNodes(x: seq<nat>, n: nat)
    requires n >= 1
    ensures AllNodes(Copath(x, n), n)
  {
    hide CopathOf, Root, NodeWidth;
    WidthFits(n);
    CopathIncreases(Root(n), n, ToSet(NodesOf(x)));
    assert forall i | 0 <= i < |Copath(x, n)| :: Copath(x, n)[i] in Copath(x, n);
  }

  /** Soundness and completeness: the evaluator returns the root of a log exactly when every supplied
  value is the log's entry at its index and every proof node is the log's own. */
  lemma BatchIsExact(x: seq<nat>, n: nat, values: seq<Hash>, proof: seq<Hash>, log: seq<Hash>)
    requires n >= 1 && |log| == n && WellFormed(x, n, values, proof)
    ensures AllNodes(Copath(x, n), n) && forall i | 0 <= i < |x| :: x[i] < n
    ensures EvaluateBatch(x, n, values, proof) == Ok(RootOf(log))
            <==> values == Selected(x, log) && proof == HonestValues(Copath(x, n), log)
  {
    hide Root, NodeWidth, Copath, CoverOf, Merge, HonestHash, RootOf, RootResult, InsertAll, Tiles,
         Zip, Ids, Values, HonestValues, Selected, IncreasingNeighbours, AllHonest, AllNodes;
    WellFormedBelow(x, n);
    CopathAreNodes(x, n);
    var copath := Copath(x, n);
    var items := BatchItems(x, values, copath, proof);
    BatchIdsAreCover(x, n, values, proof);
    var cover := CoverOf(Root(n), n, ToSet(NodesOf(x)));
    CoverTiles(Root(n), n, ToSet(NodesOf(x)));
    RootSpan(n);
    TilesAreNodes(cover, 0, n, n);
    ItemsAreZip(items);
    CoverNonempty(cover, n);
    CoverIsExact(cover, Values(items), log);
    ZipHonest(cover, Values(items), log);
    MergeHonest(Zip(NodesOf(x), values), Zip(copath, proof), log);
    HonestLeaves(x, log);
    ZipHonest(NodesOf(x), values, log);
    ZipHonest(copath, proof, log);
  }

  lemma CoverNonempty(cover: seq<nat>, n: nat)
    requires n >= 1 && Tiles(cover, 0, n, n)
    ensures cover != []
  {
  }

  /** A well-formed request always evaluates to some root. */
  lemma BatchAlwaysEvaluates(x: seq<nat>, n: nat, values: seq<Hash>, proof: seq<Hash>)
    ensures EvaluateBatch(x, n, values, proof).Ok? <==> WellFormed(x, n, values, proof)
    ensures EvaluateBatch(x, n, values, proof).Err? ==>
              EvaluateBatch(x, n, values, proof).error in {InvalidInput, MalformedProof}
  {
    hide Copath, Merge, RootResult, InsertAll, Zip, IncreasingNeighbours;
    if WellFormed(x, n, values, proof) {
      var xs, ys := Zip(NodesOf(x), values), Zip(Copath(x, n), proof);
      MergeMembers(xs, ys, xs[0]);
      InsertedHasRoot([], Merge(xs, ys));
    }
  }
}
