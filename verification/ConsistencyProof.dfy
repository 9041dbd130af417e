/** `verify_consistency_proof`: what it accepts, exactly. */
module ConsistencyProof {
  import opened Wrappers
  import opened Bits
  import opened Geometry
  import opened LeftBalanced
  import opened Hashes
  import opened Merkle
  import opened Calculator
  import opened LogTree
  import opened Consistency

  function Zip(ids: seq<nat>, values: seq<Hash>): (items: seq<Item>)
    requires |ids| == |values|
    ensures |items| == |ids|
    ensures forall i | 0 <= i < |ids| :: items[i] == Item(ids[i], values[i])
  {
    seq(|ids|, i requires 0 <= i < |ids| => Item(ids[i], values[i]))
  }

  /** The checks of the verifier, as a function of its arguments. */
  function VerifyConsistency(m: nat, n: nat, proof: seq<Hash>, mRoot: Hash, nRoot: Hash): LogResult<()> {
    if m == 0 || m >= n then Err(InvalidInput)
    else
      var ids := SubProof(m, n, true);
      if |proof| != |ids| then Err(MalformedProof)
      else
        var path := Decomposition(m);
        if |path| == 1 then
          WithNew(InsertAll([], [Item(Root(m), mRoot)]), ids, proof, nRoot)
        else if !(path <= ids) then Err(Unexpected)
        else
          var chain := InsertAll([], Zip(path, proof[..|path|]));
          match RootResult(chain)
          case Err(e) => Err(e)
          case Ok(root) =>
            if mRoot != root then Err(ProofMismatch)
            else WithNew(chain, ids[|path|..], proof[|path|..], nRoot)
  }

  /** Add the remaining proof nodes and compare with the new root. */
  function WithNew(chain: Chain, ids: seq<nat>, proof: seq<Hash>, nRoot: Hash): LogResult<()>
    requires |ids| == |proof|
  {
    match RootResult(InsertAll(chain, Zip(ids, proof)))
    case Err(e) => Err(e)
    case Ok(root) => if nRoot == root then Ok(()) else Err(ProofMismatch)
  }

  // ---------------------------------------------------------------------------------------------
  // The imperative verifier computes that function.

  lemma {:induction false} SubProofAreNodes(m: nat, n: nat, b: bool)
    requires 1 <= m <= n
    ensures AllNodes(SubProof(m, n, b), n)
    decreases n
  {
    hide Root, Right, LeftOf, Split, Shift, First, Level;
    if m == n {
      WidthFits(m);
    } else {
      var k := Split(n);
      RootFacts(n);
      RightFacts(Root(n), n);
      if m <= k { SubProofAreNodes(m, k, b); } else { SubProofAreNodes(m - k, n - k, false); }
    }
  }

  /** Fix up the values inserted from position start on. */
  method AddToTail(output: seq<u64>, start: nat, d: u64) returns (out: seq<u64>)
    requires start <= |output| && forall i | start <= i < |output| :: output[i] + d < TWO_64
    ensures out == output[..start] + Shift(output[start..], d)
  {
    out := output;
    var i := start;
    while i < |out|
      invariant start <= i <= |out| == |output|
      invariant forall j | 0 <= j < |out| :: out[j] == if start <= j < i then output[j] + d else output[j]
    {
      out := out[i := out[i] + d];
      i := i + 1;
    }
  }

  method SplitPoint(n: u64) returns (k: u64)
    requires n >= 2
    ensures k == Split(n)
  {
    Log2Bounds(n);
    SplitIsSource(n);
    hide Split, Log2, Pow2;
    k := Pow2(Log2(n));
    if k == n {
      k := k / 2;
    }
  }

  lemma SubProofEnds(m: nat, b: bool)
    requires m >= 1
    ensures SubProof(m, m, b) == if b then [] else [Root(m)]
  {
  }

  lemma SubProofCases(m: nat, n: nat, b: bool)
    requires 1 <= m < n
    ensures Root(n) % 2 == 1 && Root(n) < NodeWidth(n)
    ensures m <= Split(n) ==> SubProof(m, n, b) == SubProof(m, Split(n), b) + [Right(Root(n), n)]
    ensures m > Split(n) ==>
              SubProof(m, n, b) == [LeftOf(Root(n))] + Shift(SubProof(m - Split(n), n - Split(n), false), 2 * Split(n))
  {
    hide Root, Right, LeftOf, Split, Shift;
    RootFacts(n);
  }

  method SubProofImpl(m: u64, n: u64, b: bool, output: seq<u64>) returns (out: seq<u64>)
    requires 1 <= m <= n <= MAX_TREE_SIZE
    ensures out == output + SubProof(m, n, b)
    decreases n
  {
    hide Root, Right, LeftOf, Split, First, Level, NodeWidth, Shift, SubProof;
    WidthFits(n);
    WidthIs(n);
    if m == n {
      SubProofEnds(m, b);
      return if b then output else output + [Root(m)];
    }
    RootFacts(n);
    SubProofCases(m, n, b);
    var k := SplitPoint(n);
    if m <= k {
      out := SubProofImpl(m, k, b, output);
      var r := RightChild(Root(n), n);
      out := out + [r];
    } else {
      LowUnder(Root(n), Root(n));
      var l := GoLeft(Root(n));
      out := output + [l];
      var start := |out|;
      ghost var inner := SubProof(m - k, n - k, false);
      SubProofAreNodes(m - k, n - k, false);
      WidthIs(n - k);
      out := SubProofImpl(m - k, n - k, false, out);
      assert out[start..] == inner && out[..start] == output + [LeftOf(Root(n))];
      assert forall i | start <= i < |out| :: out[i] == inner[i - start];
      out := AddToTail(out, start, 2 * k);
    }
  }

  method ConsistencyIds(m: u64, n: u64) returns (ids: seq<u64>)
    requires 1 <= m <= n <= MAX_TREE_SIZE
    ensures ids == SubProof(m, n, true)
  {
    ids := SubProofImpl(m, n, true, []);
  }

  lemma {:induction false} InsertAllSnoc(chain: Chain, items: seq<Item>, item: Item)
    ensures InsertAll(chain, items + [item]) == InsertAt(InsertAll(chain, items), Level(item.id), NodeOf(item))
    decreases |items|
  {
    hide InsertAt, Level;
    if items == [] {
      assert items + [item] == [item];
      assert [item][1..] == [];
    } else {
      assert (items + [item])[1..] == items[1..] + [item];
      InsertAllSnoc(InsertAt(chain, Level(items[0].id), NodeOf(items[0])), items[1..], item);
    }
  }

  lemma ZipSnoc(ids: seq<nat>, proof: seq<Hash>, lo: nat, j: nat)
    requires lo <= j < |ids| && j < |proof|
    ensures Zip(ids[lo..j + 1], proof[lo..j + 1]) == Zip(ids[lo..j], proof[lo..j]) + [Item(ids[j], proof[j])]
  {
  }

  /** Insert the nodes from position lo on, each with its proof value. */
  method InsertFrom(counter: SimpleRootCalculator, ids: seq<nat>, proof: seq<Hash>, lo: nat)
    requires lo <= |ids| == |proof|
    modifies counter
    ensures counter.chain == InsertAll(old(counter.chain), Zip(ids[lo..], proof[lo..]))
  {
    hide InsertAt, Level, Zip;
    var j := lo;
    assert Zip(ids[lo..lo], proof[lo..lo]) == [];
    while j < |ids|
      invariant lo <= j <= |ids|
      invariant counter.chain == InsertAll(old(counter.chain), Zip(ids[lo..j], proof[lo..j]))
    {
      ZipSnoc(ids, proof, lo, j);
      InsertAllSnoc(old(counter.chain), Zip(ids[lo..j], proof[lo..j]), Item(ids[j], proof[j]));
      LevelIsTrailingOnes(ids[j]);
      counter.Insert(TrailingOnes(ids[j]), proof[j]);
      j := j + 1;
    }
    assert ids[lo..j] == ids[lo..] && proof[lo..j] == proof[lo..];
  }

  lemma PathFits(m: nat, n: nat)
    requires 1 <= m < n && |Decomposition(m)| != 1
    ensures |Decomposition(m)| <= |SubProof(m, n, true)|
  {
    hide Decomposition, SubProof, FullRoot, Rest;
    SubProofShape(m, n, true);
    if FullRoot(m) { FullDecomposition(m); }
  }

  /** Insert the nodes of the path while they agree with the proof's node ids. */
  method InsertPath(counter: SimpleRootCalculator, path: seq<nat>, ids: seq<nat>, proof: seq<Hash>)
    returns (matches: bool)
    requires |path| <= |ids| == |proof| && counter.chain == []
    modifies counter
    ensures matches <==> path <= ids
    ensures matches ==> counter.chain == InsertAll([], Zip(path, proof[..|path|]))
  {
    hide InsertAt, Level, Zip;
    var i := 0;
    while i < |path|
      invariant 0 <= i <= |path|
      invariant path[..i] == ids[..i]
      invariant counter.chain == InsertAll([], Zip(path[..i], proof[..i]))
    {
      if ids[i] != path[i] {
        return false;
      }
      ZipSnoc(path, proof, 0, i);
      InsertAllSnoc([], Zip(path[..i], proof[..i]), Item(path[i], proof[i]));
      LevelIsTrailingOnes(path[i]);
      counter.Insert(TrailingOnes(path[i]), proof[i]);
      i := i + 1;
    }
    assert path == path[..i];
    return true;
  }

  lemma InsertFirst(x: nat, value: Hash)
    ensures InsertAll([], [Item(x, value)]) == InsertAt([], TrailingOnes(x), NodeData(TrailingOnes(x) != 0, value))
  {
    hide InsertAt, Level;
    LevelIsTrailingOnes(x);
    assert [Item(x, value)][1..] == [];
  }

  method VerifyConsistencyProof(m: u64, n: u64, proof: seq<Hash>, mRoot: Hash, nRoot: Hash)
    returns (r: LogResult<()>)
    requires n <= MAX_TREE_SIZE
    ensures r == VerifyConsistency(m, n, proof, mRoot, nRoot)
  {
    hide InsertAll, InsertAt, Root, SubProof, Decomposition, FullSubtrees, Fold, Zip, RootResult;
    if m == 0 || m >= n {
      return Err(InvalidInput);
    }
    var ids := ConsistencyIds(m, n);
    if |proof| != |ids| {
      return Err(MalformedProof);
    }
    var counter := new SimpleRootCalculator();
    WidthFits(m);
    DecompositionIs(m);
    var path := CollectFullSubtrees(Root(m), m);
    var i := 0;
    if |path| == 1 {
      InsertFirst(Root(m), mRoot);
      counter.Insert(TrailingOnes(Root(m)), mRoot);
    } else {
      PathFits(m, n);
      var matches := InsertPath(counter, path, ids, proof);
      if !matches {
        return Err(Unexpected);
      }
      var root := counter.Root();
      if root.Err? {
        return Err(root.error);
      }
      if mRoot != root.value {
        return Err(ProofMismatch);
      }
      i := |path|;
    }
    InsertFrom(counter, ids, proof, i);
    assert ids[0..] == ids && proof[0..] == proof;
    var root := counter.Root();
    if root.Err? {
      return Err(root.error);
    }
    return if nRoot == root.value then Ok(()) else Err(ProofMismatch);
  }

  // ---------------------------------------------------------------------------------------------
  // What acceptance means.

  /** The proof an honest server sends. */
  function HonestProof(m: nat, n: nat, log: seq<Hash>): (proof: seq<Hash>)
    requires 1 <= m < n == |log|
    ensures |proof| == |SubProof(m, n, true)|
  {
    SubProofAreNodes(m, n, true);
    HonestValues(SubProof(m, n, true), log)
  }

  function HonestValues(ids: seq<nat>, log: seq<Hash>): (values: seq<Hash>)
    requires AllNodes(ids, |log|)
    ensures |values| == |ids|
    ensures forall i | 0 <= i < |ids| :: values[i] == HonestHash(ids[i], log)
  {
    seq(|ids|, i requires 0 <= i < |ids| => HonestHash(ids[i], log))
  }

  lemma HonestIsZip(ids: seq<nat>, log: seq<Hash>)
    requires AllNodes(ids, |log|)
    ensures Honest(ids, log) == Zip(ids, HonestValues(ids, log))
  {
    hide HonestHash, NodeWidth;
  }

  lemma ZipDetermines(ids: seq<nat>, a: seq<Hash>, b: seq<Hash>)
    requires |ids| == |a| == |b| && Zip(ids, a) == Zip(ids, b)
    ensures a == b
  {
    forall i | 0 <= i < |a|
      ensures a[i] == b[i]
    {
      assert Zip(ids, a)[i] == Zip(ids, b)[i];
    }
  }

  lemma {:induction false} InsertAllConcat(chain: Chain, xs: seq<Item>, ys: seq<Item>)
    ensures InsertAll(chain, xs + ys) == InsertAll(InsertAll(chain, xs), ys)
    decreases |xs|
  {
    hide InsertAt, Level;
    if xs == [] {
      assert xs + ys == ys;
    } else {
      assert (xs + ys)[1..] == xs[1..] + ys;
      InsertAllConcat(InsertAt(chain, Level(xs[0].id), NodeOf(xs[0])), xs[1..], ys);
    }
  }

  /** A cover of all n leaves returns the log's root exactly when every value is the honest one. */
  lemma CoverIsExact(ids: seq<nat>, values: seq<Hash>, log: seq<Hash>)
    requires ids != [] && |ids| == |values| && AllNodes(ids, |log|)
    requires Tiles(ids, 0, |log|, |log|) && |log| >= 1
    ensures RootResult(InsertAll([], Zip(ids, values))) == Ok(RootOf(log)) <==> values == HonestValues(ids, log)
  {
    hide Tiles, InsertAt, TreeOf, Leaves, AllNodes, HonestHash, Honest, HonestValues, Zip;
    CoverGivesRoot(ids, log);
    HonestIsZip(ids, log);
    if RootResult(InsertAll([], Zip(ids, values))) == Ok(RootOf(log)) {
      SameShapeNone();
      InsertAllIsInjective([], [], Zip(ids, values), Zip(ids, HonestValues(ids, log)));
      ZipDetermines(ids, values, HonestValues(ids, log));
    }
  }

  lemma InsertAllGrows(chain: Chain, items: seq<Item>)
    requires chain != [] || items != []
    ensures InsertAll(chain, items) != []
    decreases |items|
  {
    hide Level;
    if items != [] {
      InsertAllGrows(InsertAt(chain, Level(items[0].id), NodeOf(items[0])), items[1..]);
    }
  }

  lemma CoverGivesRoot(ids: seq<nat>, log: seq<Hash>)
    requires ids != [] && AllNodes(ids, |log|) && |log| >= 1
    requires Tiles(ids, 0, |log|, |log|)
    ensures RootResult(InsertAll([], Honest(ids, log))) == Ok(RootOf(log))
    ensures Fold(InsertAll([], Honest(ids, log)), None) == Some(TreeOf(Leaves(log)))
  {
    hide Tiles, InsertAt, TreeOf, AllNodes, HonestHash, Fold, InsertAll;
    assert Leaves(log[..0]) == [];
    InsertToEnd([], ids, 0, log);
    InsertAllGrows([], Honest(ids, log));
  }

  // ---------------------------------------------------------------------------------------------
  // The two cases of the verifier.

  lemma {:induction false} WidenFullTiles(ids: seq<nat>, a: nat, e: nat, m: nat, n: nat)
    requires Tiles(ids, a, e, m) && m <= n && forall i | 0 <= i < |ids| :: Last(ids[i]) < m
    ensures Tiles(ids, a, e, n)
    decreases |ids|
  {
    hide First;
    if ids != [] { WidenFullTiles(ids[1..], Stop(ids[0], n), e, m, n); }
  }

  /** The old tree's full subtrees cover its m leaves, inside the old tree and inside the new one. */
  lemma DecompositionTiles(m: nat, n: nat)
    requires 1 <= m <= n
    ensures Tiles(Decomposition(m), 0, m, m) && Tiles(Decomposition(m), 0, m, n)
    ensures forall i | 0 <= i < |Decomposition(m)| :: Last(Decomposition(m)[i]) < m
  {
    hide First, Root, FullSubtrees, Tiles;
    RootSpans(m);
    FullSubtreesTile(Root(m), m);
    WidenFullTiles(Decomposition(m), 0, m, m, n);
  }

  lemma SingleMeansFull(m: nat)
    requires m >= 1
    ensures |Decomposition(m)| == 1 <==> FullRoot(m)
    ensures |Decomposition(m)| >= 1
  {
    hide First, Level, LeftOf, Right, Root, IsFullSubtree;
    RootSpans(m);
    FullMeansLast(Root(m), m);
    if !IsFullSubtree(Root(m), m) {
      ChildrenPartition(Root(m), m);
      FullSubtreesNonempty(Right(Root(m), m), m);
    }
  }

  lemma FullSubtreesNonempty(x: nat, n: nat)
    requires n >= 1 && x < NodeWidth(n)
    ensures |FullSubtrees(x, n)| >= 1
  {
  }

  lemma HonestRoot(m: nat, log: seq<Hash>)
    requires 1 <= m <= |log| && FullRoot(m)
    ensures Root(m) < NodeWidth(|log|) && HonestHash(Root(m), log) == RootOf(log[..m])
    ensures Tiles([Root(m)], 0, m, |log|)
  {
    hide First, Root, TreeOf, Leaves;
    RootSpans(m);
    TilesOne(Root(m), |log|);
  }

  /** m is a power of two: the old root itself is the first node of a cover of the new tree. */
  lemma ExactWhenPower(m: nat, n: nat, proof: seq<Hash>, mRoot: Hash, log: seq<Hash>)
    requires 1 <= m < n == |log| && FullRoot(m) && |proof| == |SubProof(m, n, true)|
    ensures VerifyConsistency(m, n, proof, mRoot, RootOf(log)).Ok?
            <==> mRoot == RootOf(log[..m]) && proof == HonestProof(m, n, log)
  {
    hide Tiles, InsertAll, InsertAt, RootOf, HonestHash, HonestValues, Zip, Rest, Decomposition, SubProof,
         FullRoot, Root, AllNodes, RootResult;
    var ids := SubProof(m, n, true);
    SingleMeansFull(m);
    SubProofShape(m, n, true);
    assert ids == Rest(m, n);
    RestTiles(m, n);
    HonestRoot(m, log);
    var cover := [Root(m)] + ids;
    TilesAppend([Root(m)], ids, 0, m, n, n);
    TilesAreNodes(cover, 0, n, n);
    SubProofAreNodes(m, n, true);
    CoverIsExact(cover, [mRoot] + proof, log);
    ZipCons(Root(m), mRoot, ids, proof);
    InsertAllConcat([], [Item(Root(m), mRoot)], Zip(ids, proof));
    HonestCons(Root(m), ids, log);
    assert ([mRoot] + proof)[1..] == proof && ([mRoot] + proof)[0] == mRoot;
    var h := HonestValues(ids, log);
    assert ([HonestHash(Root(m), log)] + h)[1..] == h;
  }

  lemma ZipCons(x: nat, v: Hash, ids: seq<nat>, values: seq<Hash>)
    requires |ids| == |values|
    ensures Zip([x] + ids, [v] + values) == [Item(x, v)] + Zip(ids, values)
  {
  }

  lemma HonestCons(x: nat, ids: seq<nat>, log: seq<Hash>)
    requires x < NodeWidth(|log|) && AllNodes(ids, |log|)
    ensures AllNodes([x] + ids, |log|)
    ensures HonestValues([x] + ids, log) == [HonestHash(x, log)] + HonestValues(ids, log)
  {
    hide HonestHash, NodeWidth;
  }

  lemma ZipAppend(a: seq<nat>, b: seq<nat>, u: seq<Hash>, v: seq<Hash>)
    requires |a| == |u| && |b| == |v|
    ensures Zip(a + b, u + v) == Zip(a, u) + Zip(b, v)
  {
  }

  /** The honest prefix of a proof rebuilds the root of the old tree. */
  lemma PrefixRebuildsRoot(m: nat, log: seq<Hash>)
    requires 1 <= m <= |log| && AllNodes(Decomposition(m), |log|)
    ensures RootResult(InsertAll([], Honest(Decomposition(m), log))) == Ok(RootOf(log[..m]))
  {
    hide Tiles, InsertAt, TreeOf, AllNodes, HonestHash, Fold, InsertAll, Represents, Decomposition, Honest, First, Root;
    var path := Decomposition(m);
    DecompositionTiles(m, |log|);
    RepresentsNothing();
    assert Leaves(log[..0]) == [];
    InsertFull([], path, 0, m, log);
    FoldIsRoot(InsertAll([], Honest(path, log)), Leaves(log[..m]));
    SingleMeansFull(m);
    InsertAllGrows([], Honest(path, log));
  }

  lemma RepresentsNothing()
    ensures Represents([], [])
  {
  }

  /** m is not a power of two: the old root is rebuilt from a prefix of the proof. */
  lemma ExactWhenNotPower(m: nat, n: nat, proof: seq<Hash>, mRoot: Hash, log: seq<Hash>)
    requires 1 <= m < n == |log| && !FullRoot(m) && |proof| == |SubProof(m, n, true)|
    ensures VerifyConsistency(m, n, proof, mRoot, RootOf(log)).Ok?
            <==> mRoot == RootOf(log[..m]) && proof == HonestProof(m, n, log)
  {
    hide Tiles, InsertAll, InsertAt, RootOf, HonestHash, HonestValues, Zip, Rest, Decomposition, SubProof,
         FullRoot, Root, AllNodes, RootResult, Honest, Last;
    var ids, path := SubProof(m, n, true), Decomposition(m);
    SingleMeansFull(m);
    SubProofShape(m, n, true);
    assert ids == path + Rest(m, n) && ids[|path|..] == Rest(m, n) && ids[..|path|] == path;
    DecompositionTiles(m, n);
    RestTiles(m, n);
    TilesAppend(path, Rest(m, n), 0, m, n, n);
    SubProofAreNodes(m, n, true);
    TilesAreNodes(path, 0, m, n);
    CoverIsExact(ids, proof, log);
    var u, v := proof[..|path|], proof[|path|..];
    assert proof == u + v;
    ZipAppend(path, ids[|path|..], u, v);
    InsertAllConcat([], Zip(path, u), Zip(ids[|path|..], v));
    if proof == HonestProof(m, n, log) {
      HonestPrefix(path, ids, log);
      HonestIsZip(path, log);
      PrefixRebuildsRoot(m, log);
    }
  }

  lemma HonestPrefix(path: seq<nat>, ids: seq<nat>, log: seq<Hash>)
    requires path <= ids && AllNodes(path, |log|) && AllNodes(ids, |log|)
    ensures HonestValues(ids, log)[..|path|] == HonestValues(path, log)
  {
    hide HonestHash, NodeWidth;
  }

  /** Soundness and completeness: against the root of a log, the verifier accepts exactly the honest
  proof together with the root of the log's first m entries. */
  lemma ConsistencyIsExact(m: nat, n: nat, proof: seq<Hash>, mRoot: Hash, log: seq<Hash>)
    requires 1 <= n == |log|
    ensures VerifyConsistency(m, n, proof, mRoot, RootOf(log)).Ok?
            <==> 1 <= m < n && mRoot == RootOf(log[..m]) && proof == HonestProof(m, n, log)
  {
    hide InsertAll, InsertAt, RootOf, Decomposition, SubProof, FullRoot, Root, RootResult, HonestValues;
    if 1 <= m < n && |proof| == |SubProof(m, n, true)| {
      if FullRoot(m) {
        ExactWhenPower(m, n, proof, mRoot, log);
      } else {
        ExactWhenNotPower(m, n, proof, mRoot, log);
      }
    }
  }

  // ---------------------------------------------------------------------------------------------
  // Errors that cannot happen.

  lemma {:induction false} FoldKeepsSome(chain: Chain, acc: Option<NodeData>)
    requires acc.Some?
    ensures Fold(chain, acc).Some?
    decreases |chain|
  {
    if chain != [] {
      FoldKeepsSome(chain[1..], if chain[0] == None then acc else Some(Combine(chain[0].value, acc.value)));
    }
  }

  lemma {:induction false} InsertedFolds(chain: Chain, level: nat, nd: NodeData, acc: Option<NodeData>)
    ensures Fold(InsertAt(chain, level, nd), acc).Some?
    decreases level, |chain|
  {
    var c := InsertAt(chain, level, nd);
    var next := if c[0] == None then acc else if acc == None then c[0] else Some(Combine(c[0].value, acc.value));
    assert Fold(c, acc) == Fold(c[1..], next);
    if level > 0 {
      var rest := if chain == [] then [] else chain[1..];
      assert c[1..] == InsertAt(rest, level - 1, nd);
      InsertedFolds(rest, level - 1, nd, next);
    } else if chain != [] && chain[0].Some? {
      assert c[1..] == InsertAt(chain[1..], 0, Combine(chain[0].value, nd));
      InsertedFolds(chain[1..], 0, Combine(chain[0].value, nd), next);
    } else {
      FoldKeepsSome(c[1..], next);
    }
  }

  lemma {:induction false} InsertedHasRoot(chain: Chain, items: seq<Item>)
    requires items != []
    ensures RootResult(InsertAll(chain, items)).Ok?
    decreases |items|
  {
    hide Fold, InsertAt, Level;
    var c := InsertAt(chain, Level(items[0].id), NodeOf(items[0]));
    if |items| == 1 {
      InsertedFolds(chain, Level(items[0].id), NodeOf(items[0]), None);
    } else {
      InsertedHasRoot(c, items[1..]);
    }
  }

  /** The ids always start with the path, and the calculator always has a root: the only ways to fail
  are a bad size, a proof of the wrong length, and a root that does not match. */
  lemma ConsistencyFailures(m: nat, n: nat, proof: seq<Hash>, mRoot: Hash, nRoot: Hash)
    ensures var r := VerifyConsistency(m, n, proof, mRoot, nRoot);
            r.Ok? || r.error in {InvalidInput, MalformedProof, ProofMismatch}
    ensures 1 <= m < n && !FullRoot(m) ==> Decomposition(m) <= SubProof(m, n, true)
    ensures 1 <= m < n ==>
              forall i, j | 0 <= i < j < |SubProof(m, n, true)| :: SubProof(m, n, true)[i] < SubProof(m, n, true)[j]
  {
    hide Tiles, InsertAll, InsertAt, RootOf, Zip, Rest, Decomposition, SubProof, FullRoot, Root, RootResult, Last;
    if 1 <= m < n {
      var ids, path := SubProof(m, n, true), Decomposition(m);
      SingleMeansFull(m);
      SubProofShape(m, n, true);
      RestTiles(m, n);
      RestNonempty(m, n);
      DecompositionTiles(m, n);
      if FullRoot(m) {
        assert ids == Rest(m, n);
        TilesIncrease(ids, m, n, n);
      } else {
        TilesAppend(path, Rest(m, n), 0, m, n, n);
        TilesIncrease(ids, 0, n, n);
        assert ids[|path|..] == Rest(m, n);
      }
      if |proof| == |ids| {
        if FullRoot(m) {
          InsertedHasRoot(InsertAll([], [Item(Root(m), mRoot)]), Zip(ids, proof));
        } else {
          InsertedHasRoot([], Zip(path, proof[..|path|]));
          InsertedHasRoot(InsertAll([], Zip(path, proof[..|path|])), Zip(ids[|path|..], proof[|path|..]));
        }
      }
    }
  }

  lemma RestNonempty(m: nat, n: nat)
    requires 1 <= m < n
    ensures |Rest(m, n)| >= 1
  {
    hide Tiles;
    RestTiles(m, n);
    if Rest(m, n) == [] { TilesEmpty(m, n, n); }
  }

  lemma TilesEmpty(a: nat, e: nat, n: nat)
    requires Tiles([], a, e, n)
    ensures a == e
  {
  }
}
