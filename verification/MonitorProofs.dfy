/** Verifying a monitoring response. */
module MonitorProofs {
  import opened Wrappers
  import opened Bits
  import opened Paths
  import opened Hashes
  import opened Merkle
  import opened BatchProof
  import opened Prefix
  import opened Heads
  import opened Monitor
  import opened Search

  datatype MonitorKey = MonitorKey(searchKey: seq<byte>, entryPosition: u64)

  datatype MonitorRequest = MonitorRequest(keys: seq<MonitorKey>, consistencyLast: Option<u64>)

  datatype MonitorResponse = MonitorResponse(
    treeHead: Option<FullTreeHead>,
    proofs: seq<seq<ProofStep>>,
    inclusion: seq<Option<Hash>>)

  type KeyData = map<seq<byte>, MonitoringData>

  /** The path of this key cannot be computed for this size: checking its proof does not return. */
  ghost predicate KeyStuck(key: MonitorKey, data: KeyData, n: nat) {
    key.searchKey in data && !PathReturns(key.entryPosition, data[key.searchKey].pos, n)
  }

  // ---------------------------------------------------------------------------------------------
  // One key.

  /** The leaves hold what the k-th step stands for at the k-th position of the monitoring path. */
  ghost predicate StepHolds(d: MonitoringData, p: nat, step: ProofStep, leaves: map<nat, Hash>)
  {
    p in leaves && StepLeaf(d.index, d.pos, step) == Some(leaves[p])
  }

  /** One proof is complete, well formed and agrees with the leaves. */
  ghost predicate KeyHolds(key: MonitorKey, proof: seq<ProofStep>, data: KeyData, n: nat, leaves: map<nat, Hash>)
  {
    && key.searchKey in data && PathReturns(key.entryPosition, data[key.searchKey].pos, n)
    && var path := FullPath(key.entryPosition, n);
    && |proof| == |path|
    && forall k | 0 <= k < |path| :: StepHolds(data[key.searchKey], path[k], proof[k], leaves)
  }

  /** The steps by position. */
  ghost predicate EntriesFor(path: seq<nat>, proof: seq<ProofStep>, entries: map<nat, ProofStep>)
    requires |path| == |proof|
  {
    && (forall k | 0 <= k < |path| :: path[k] in entries && entries[path[k]] == proof[k])
    && (forall p | p in entries :: p in path)
  }

  /** Nothing is forgotten and only positions of the path are added. */
  ghost predicate Grows(before: map<nat, Hash>, path: seq<nat>, after: map<nat, Hash>) {
    && Includes(after, before)
    && (forall p | p in after :: p in before || p in path)
  }

  ghost predicate Includes(big: map<nat, Hash>, small: map<nat, Hash>) {
    forall p | p in small :: p in big && big[p] == small[p]
  }

  /** The first i steps of a path are checked and added to the leaves gathered before. */
  ghost predicate Added(d: MonitoringData, path: seq<nat>, proof: seq<ProofStep>, i: nat, before: map<nat, Hash>,
                        leaves: map<nat, Hash>, steps: map<nat, ProofStep>)
    requires i <= |path| == |proof|
  {
    && (forall k | 0 <= k < i :: StepHolds(d, path[k], proof[k], leaves))
    && (forall k | 0 <= k < i :: path[k] in steps && steps[path[k]] == proof[k])
    && (forall p | p in steps :: p in path)
    && Grows(before, path, leaves)
    && (forall k | i <= k < |path| :: path[k] in leaves ==> path[k] in before)
  }

  lemma AddOne(d: MonitoringData, path: seq<nat>, proof: seq<ProofStep>, i: nat, before: map<nat, Hash>,
               leaves: map<nat, Hash>, steps: map<nat, ProofStep>, leaf: Hash)
    requires i < |path| == |proof| && forall j, k | 0 <= j < k < |path| :: path[j] < path[k]
    requires Added(d, path, proof, i, before, leaves, steps) && StepLeaf(d.index, d.pos, proof[i]) == Some(leaf)
    requires path[i] in leaves ==> leaves[path[i]] == leaf
    ensures Added(d, path, proof, i + 1, before, leaves[path[i] := leaf], steps[path[i] := proof[i]])
  {
    hide StepLeaf, Grows;
    var after := leaves[path[i] := leaf];
    GrowsBy(before, path, leaves, i, leaf);
    forall k | 0 <= k < |path| && k != i
      ensures path[k] != path[i]
    {
    }
    forall k | 0 <= k < i + 1
      ensures StepHolds(d, path[k], proof[k], after)
    {
      if k < i { assert StepHolds(d, path[k], proof[k], leaves); }
    }
  }

  lemma GrowsBy(before: map<nat, Hash>, path: seq<nat>, leaves: map<nat, Hash>, i: nat, leaf: Hash)
    requires i < |path| && Grows(before, path, leaves) && (path[i] in leaves ==> leaves[path[i]] == leaf)
    ensures Grows(before, path, leaves[path[i] := leaf])
  {
  }

  /** A step that is malformed, or disagrees with a leaf gathered before, fits no larger set of leaves. */
  lemma Clash(d: MonitoringData, path: seq<nat>, proof: seq<ProofStep>, i: nat, before: map<nat, Hash>,
              leaves: map<nat, Hash>, steps: map<nat, ProofStep>, b: map<nat, Hash>)
    requires i < |path| == |proof| && Added(d, path, proof, i, before, leaves, steps)
    requires var leaf := StepLeaf(d.index, d.pos, proof[i]);
             leaf == None || (path[i] in leaves && leaf != Some(leaves[path[i]]))
    requires Includes(b, before)
    ensures !StepHolds(d, path[i], proof[i], b)
  {
    hide StepLeaf;
  }

  class MonitorProofAcc {
    const treeSize: u64
    var leaves: map<nat, Hash>
    var entries: seq<map<nat, ProofStep>>

    constructor (n: u64)
      ensures treeSize == n && leaves == map[] && entries == []
    {
      treeSize, leaves, entries := n, map[], [];
    }

    /** Check one key's proof and add its leaves.  It fails exactly when no leaves extending the ones
    gathered so far would satisfy it, and does not return exactly when the key is stuck. */
    method Process(data: KeyData, key: MonitorKey, proof: seq<ProofStep>) returns (r: Option<VerifyResult<()>>)
      requires treeSize <= MAX_TREE_SIZE
      modifies this
      ensures r == None <==> KeyStuck(key, data, treeSize)
      ensures r.Some? && r.value.Ok? ==> KeyHolds(key, proof, data, treeSize, leaves)
      ensures r.Some? && r.value.Ok? ==> Grows(old(leaves), FullPath(key.entryPosition, treeSize), leaves)
      ensures r.Some? && r.value.Ok? ==> |entries| == |old(entries)| + 1 && entries[..|old(entries)|] == old(entries)
      ensures r.Some? && r.value.Ok? ==> EntriesFor(FullPath(key.entryPosition, treeSize), proof, entries[|old(entries)|])
      ensures r.Some? && r.value.Err? ==> forall b | Includes(b, old(leaves)) :: !KeyHolds(key, proof, data, treeSize, b)
    {
      hide StepLeaf, FullPath, StepHolds, Grows, Includes, Added, PathReturns;
      if key.searchKey !in data {
        return Some(Err(BadData));
      }
      var d := data[key.searchKey];
      var path :- FullMonitoringPath(key.entryPosition, d.pos, treeSize);
      PathReturnsBelow(key.entryPosition, d.pos, treeSize);
      if |path| != |proof| {
        return Some(Err(VerificationFailed));
      }
      FullPathIs(key.entryPosition, treeSize);
      var steps: map<nat, ProofStep> := map[];
      AddNone(d, path, proof, leaves);
      for i := 0 to |path|
        invariant unchanged(`entries)
        invariant Added(d, path, proof, i, old(leaves), leaves, steps)
      {
        var leaf := EvaluateStep(d.index, d.pos, proof[i]);
        if leaf == None || (path[i] in leaves && leaves[path[i]] != leaf.value) {
          forall b | Includes(b, old(leaves))
            ensures !StepHolds(d, path[i], proof[i], b)
          {
            Clash(d, path, proof, i, old(leaves), leaves, steps, b);
          }
          return Some(Err(VerificationFailed));
        }
        AddOne(d, path, proof, i, old(leaves), leaves, steps, leaf.value);
        leaves := leaves[path[i] := leaf.value];
        steps := steps[path[i] := proof[i]];
      }
      AddedAll(d, path, proof, old(leaves), leaves, steps);
      entries := entries + [steps];
      return Some(Ok(()));
    }
  }

  lemma PathReturnsBelow(entry: nat, start: nat, n: nat)
    requires PathReturns(entry, start, n)
    ensures entry < n
  {
  }

  lemma AddNone(d: MonitoringData, path: seq<nat>, proof: seq<ProofStep>, before: map<nat, Hash>)
    requires |path| == |proof|
    ensures Added(d, path, proof, 0, before, before, map[])
  {
  }

  lemma AddedAll(d: MonitoringData, path: seq<nat>, proof: seq<ProofStep>, before: map<nat, Hash>,
                 leaves: map<nat, Hash>, steps: map<nat, ProofStep>)
    requires |path| == |proof| && Added(d, path, proof, |path|, before, leaves, steps)
    ensures forall k | 0 <= k < |path| :: StepHolds(d, path[k], proof[k], leaves)
    ensures EntriesFor(path, proof, steps) && Grows(before, path, leaves)
  {
    hide StepHolds, Grows;
  }

  // ---------------------------------------------------------------------------------------------
  // All keys.

  ghost predicate OnPathOf(p: nat, key: MonitorKey, n: nat) {
    key.entryPosition < n && p in FullPath(key.entryPosition, n)
  }

  ghost predicate OnSomePath(p: nat, req: MonitorRequest, n: nat, i: nat)
    requires i <= |req.keys|
  {
    exists j | 0 <= j < i :: OnPathOf(p, req.keys[j], n)
  }

  /** The leaves are those of the first i proofs, and no others. */
  ghost predicate Gathered(req: MonitorRequest, proofs: seq<seq<ProofStep>>, data: KeyData, n: nat,
                           leaves: map<nat, Hash>, entries: seq<map<nat, ProofStep>>, i: nat)
    requires i <= |req.keys| == |proofs|
  {
    && |entries| == i
    && (forall j | 0 <= j < i :: KeyGathered(req.keys[j], proofs[j], data, n, leaves, entries[j]))
    && (forall p | p in leaves :: OnSomePath(p, req, n, i))
  }

  ghost predicate KeyGathered(key: MonitorKey, proof: seq<ProofStep>, data: KeyData, n: nat,
                              leaves: map<nat, Hash>, entries: map<nat, ProofStep>)
  {
    KeyHolds(key, proof, data, n, leaves) && EntriesFor(FullPath(key.entryPosition, n), proof, entries)
  }

  /** Leaves that satisfy the same proofs include the gathered ones. */
  lemma GatheredIsLeast(req: MonitorRequest, proofs: seq<seq<ProofStep>>, data: KeyData, n: nat,
                        leaves: map<nat, Hash>, entries: seq<map<nat, ProofStep>>, i: nat, b: map<nat, Hash>)
    requires i <= |req.keys| == |proofs|
    requires Gathered(req, proofs, data, n, leaves, entries, i)
    requires forall j | 0 <= j < i :: KeyHolds(req.keys[j], proofs[j], data, n, b)
    ensures Includes(b, leaves)
  {
    hide FullPath, StepLeaf, EntriesFor;
    forall p | p in leaves
      ensures p in b && b[p] == leaves[p]
    {
      assert OnSomePath(p, req, n, i);
      var j :| 0 <= j < i && OnPathOf(p, req.keys[j], n);
      assert KeyGathered(req.keys[j], proofs[j], data, n, leaves, entries[j]);
      assert KeyHolds(req.keys[j], proofs[j], data, n, b);
      var path := FullPath(req.keys[j].entryPosition, n);
      var k :| 0 <= k < |path| && path[k] == p;
      assert StepHolds(data[req.keys[j].searchKey], path[k], proofs[j][k], leaves);
      assert StepHolds(data[req.keys[j].searchKey], path[k], proofs[j][k], b);
    }
  }

  /** One more key. */
  lemma GatherOne(req: MonitorRequest, proofs: seq<seq<ProofStep>>, data: KeyData, n: nat, before: map<nat, Hash>,
                  leaves: map<nat, Hash>, entries: seq<map<nat, ProofStep>>, i: nat)
    requires i < |req.keys| == |proofs| && |entries| == i + 1
    requires Gathered(req, proofs, data, n, before, entries[..i], i)
    requires KeyGathered(req.keys[i], proofs[i], data, n, leaves, entries[i])
    requires Grows(before, FullPath(req.keys[i].entryPosition, n), leaves)
    ensures Gathered(req, proofs, data, n, leaves, entries, i + 1)
  {
    hide FullPath, StepLeaf, EntriesFor;
    forall j | 0 <= j < i + 1
      ensures KeyGathered(req.keys[j], proofs[j], data, n, leaves, entries[j])
    {
      if j < i {
        assert KeyGathered(req.keys[j], proofs[j], data, n, before, entries[..i][j]);
        KeyHoldsGrows(req.keys[j], proofs[j], data, n, before, leaves);
      }
    }
    forall p | p in leaves
      ensures OnSomePath(p, req, n, i + 1)
    {
      if p in before {
        assert OnSomePath(p, req, n, i);
      } else {
        assert OnPathOf(p, req.keys[i], n);
      }
    }
  }

  lemma KeyHoldsGrows(key: MonitorKey, proof: seq<ProofStep>, data: KeyData, n: nat, before: map<nat, Hash>, after: map<nat, Hash>)
    requires KeyHolds(key, proof, data, n, before) && Includes(after, before)
    ensures KeyHolds(key, proof, data, n, after)
  {
    hide FullPath, StepLeaf;
    var path := FullPath(key.entryPosition, n);
    forall k | 0 <= k < |path|
      ensures StepHolds(data[key.searchKey], path[k], proof[k], after)
    {
      assert StepHolds(data[key.searchKey], path[k], proof[k], before);
    }
  }

  // ---------------------------------------------------------------------------------------------
  // The whole response.

  datatype MonitorEvidence = MonitorEvidence(
    leaves: map<nat, Hash>, entries: seq<map<nat, ProofStep>>, ids: seq<nat>, values: seq<Hash>, root: Hash)

  predicate MonitorInRange(req: MonitorRequest, res: MonitorResponse) {
    && |req.keys| == |res.proofs| && res.treeHead.Some? && res.treeHead.value.treeHead.Some?
    && 0 < res.treeHead.value.treeHead.value.treeSize <= MAX_TREE_SIZE
  }

  /** The root: with nothing to include the proof is the root itself. */
  ghost predicate RootFor(e: MonitorEvidence, n: nat, inclusion: seq<Hash>) {
    if e.leaves == map[] then e.ids == [] && e.values == [] && inclusion == [e.root]
    else SortedPairs(e.leaves, e.ids, e.values) && EvaluateBatch(e.ids, n, e.values, inclusion) == Ok(e.root)
  }

  ghost predicate MonitorHolds(req: MonitorRequest, res: MonitorResponse, data: KeyData, n: nat, e: MonitorEvidence)
    requires |req.keys| == |res.proofs|
  {
    && Gathered(req, res.proofs, data, n, e.leaves, e.entries, |req.keys|)
    && AllHashes(res.inclusion) && RootFor(e, n, HashesOf(res.inclusion))
  }

  /** The evidence is determined by the response. */
  lemma EvidenceUnique(req: MonitorRequest, res: MonitorResponse, data: KeyData, n: nat,
                       leaves: map<nat, Hash>, entries: seq<map<nat, ProofStep>>, b: MonitorEvidence)
    requires |req.keys| == |res.proofs|
    requires Gathered(req, res.proofs, data, n, leaves, entries, |req.keys|) && MonitorHolds(req, res, data, n, b)
    ensures b.leaves == leaves
  {
    hide FullPath, StepHolds, EntriesFor, RootFor, OnSomePath;
    var all := |req.keys|;
    forall j | 0 <= j < all
      ensures KeyHolds(req.keys[j], res.proofs[j], data, n, b.leaves) && KeyHolds(req.keys[j], res.proofs[j], data, n, leaves)
    {
      assert KeyGathered(req.keys[j], res.proofs[j], data, n, b.leaves, b.entries[j]);
      assert KeyGathered(req.keys[j], res.proofs[j], data, n, leaves, entries[j]);
    }
    GatheredIsLeast(req, res.proofs, data, n, leaves, entries, all, b.leaves);
    GatheredIsLeast(req, res.proofs, data, n, b.leaves, b.entries, all, leaves);
  }

  /** Checking gets as far as key i and does not return from it. */
  ghost predicate StuckAt(req: MonitorRequest, proofs: seq<seq<ProofStep>>, data: KeyData, n: nat, i: nat)
    requires |req.keys| == |proofs|
  {
    && i < |req.keys| && KeyStuck(req.keys[i], data, n)
    && exists leaves: map<nat, Hash>, entries: seq<map<nat, ProofStep>> :: Gathered(req, proofs, data, n, leaves, entries, i)
  }

  ghost predicate SomeStuck(req: MonitorRequest, proofs: seq<seq<ProofStep>>, data: KeyData, n: nat)
    requires |req.keys| == |proofs|
  {
    exists i: nat :: StuckAt(req, proofs, data, n, i)
  }

  /** Check every key's proof against one set of leaves.  It fails exactly when there is no such set, and
  does not return exactly when it gets to a key that is stuck. */
  method ProcessAll(req: MonitorRequest, proofs: seq<seq<ProofStep>>, data: KeyData, n: u64)
    returns (r: Option<VerifyResult<(map<nat, Hash>, seq<map<nat, ProofStep>>)>>)
    requires n <= MAX_TREE_SIZE && |req.keys| == |proofs|
    ensures r == None <==> SomeStuck(req, proofs, data, n)
    ensures r.Some? && r.value.Ok? ==> Gathered(req, proofs, data, n, r.value.value.0, r.value.value.1, |req.keys|)
    ensures r.Some? && r.value.Err? ==> forall b, entries :: !Gathered(req, proofs, data, n, b, entries, |req.keys|)
  {
    hide FullPath, StepHolds, KeyHolds, EntriesFor, Includes, Grows, KeyStuck, Gathered, StuckAt;
    var acc := new MonitorProofAcc(n);
    GatheredNone(req, proofs, data, n);
    for i := 0 to |req.keys|
      invariant Gathered(req, proofs, data, n, acc.leaves, acc.entries, i)
      invariant forall j: nat | j < i :: !KeyStuck(req.keys[j], data, n)
    {
      ghost var before, entries := acc.leaves, acc.entries;
      GatheredLength(req, proofs, data, n, before, entries, i);
      var step := acc.Process(data, req.keys[i], proofs[i]);
      if step == None {
        GotStuck(req, proofs, data, n, before, entries, i);
        return None;
      }
      if step.value.Err? {
        forall b, es, m: nat | m <= |req.keys| && Gathered(req, proofs, data, n, b, es, m)
          ensures m <= i
        {
          if i < m {
            HoldsUpTo(req, proofs, data, n, b, es, m, i + 1);
            GatheredIsLeast(req, proofs, data, n, before, entries, i, b);
          }
        }
        NotStuckUpTo(req, proofs, data, n, i);
        return Some(Err(step.value.error));
      }
      assert KeyGathered(req.keys[i], proofs[i], data, n, acc.leaves, acc.entries[i]);
      GatherOne(req, proofs, data, n, before, acc.leaves, acc.entries, i);
    }
    NeverStuck(req, proofs, data, n);
    return Some(Ok((acc.leaves, acc.entries)));
  }

  lemma GatheredNone(req: MonitorRequest, proofs: seq<seq<ProofStep>>, data: KeyData, n: nat)
    requires |req.keys| == |proofs|
    ensures Gathered(req, proofs, data, n, map[], [], 0)
  {
  }

  lemma GatheredLength(req: MonitorRequest, proofs: seq<seq<ProofStep>>, data: KeyData, n: nat,
                       leaves: map<nat, Hash>, entries: seq<map<nat, ProofStep>>, i: nat)
    requires i <= |req.keys| == |proofs| && Gathered(req, proofs, data, n, leaves, entries, i)
    ensures |entries| == i
  {
  }

  lemma GotStuck(req: MonitorRequest, proofs: seq<seq<ProofStep>>, data: KeyData, n: nat,
                 leaves: map<nat, Hash>, entries: seq<map<nat, ProofStep>>, i: nat)
    requires i < |req.keys| == |proofs| && Gathered(req, proofs, data, n, leaves, entries, i) && KeyStuck(req.keys[i], data, n)
    ensures SomeStuck(req, proofs, data, n)
  {
    hide Gathered, KeyStuck;
    assert StuckAt(req, proofs, data, n, i);
  }

  /** No key up to i is stuck, and checking never gets past i. */
  lemma NotStuckUpTo(req: MonitorRequest, proofs: seq<seq<ProofStep>>, data: KeyData, n: nat, i: nat)
    requires i < |req.keys| == |proofs| && forall j: nat | j <= i :: !KeyStuck(req.keys[j], data, n)
    requires forall b, es, m: nat | m <= |req.keys| && Gathered(req, proofs, data, n, b, es, m) :: m <= i
    ensures !SomeStuck(req, proofs, data, n)
  {
    hide Gathered, KeyStuck;
  }

  lemma NeverStuck(req: MonitorRequest, proofs: seq<seq<ProofStep>>, data: KeyData, n: nat)
    requires |req.keys| == |proofs| && forall j: nat | j < |req.keys| :: !KeyStuck(req.keys[j], data, n)
    ensures !SomeStuck(req, proofs, data, n)
  {
    hide Gathered, KeyStuck;
  }

  lemma HoldsUpTo(req: MonitorRequest, proofs: seq<seq<ProofStep>>, data: KeyData, n: nat,
                  leaves: map<nat, Hash>, entries: seq<map<nat, ProofStep>>, m: nat, i: nat)
    requires i <= m <= |req.keys| == |proofs| && Gathered(req, proofs, data, n, leaves, entries, m)
    ensures forall j | 0 <= j < i :: KeyHolds(req.keys[j], proofs[j], data, n, leaves)
  {
    hide KeyHolds, FullPath;
    forall j | 0 <= j < i
      ensures KeyHolds(req.keys[j], proofs[j], data, n, leaves)
    {
      assert KeyGathered(req.keys[j], proofs[j], data, n, leaves, entries[j]);
    }
  }

  /** Evaluate the inclusion proof to a candidate root. */
  method EvaluateRoot(leaves: map<nat, Hash>, entries: seq<map<nat, ProofStep>>, n: u64, inclusion: seq<Option<Hash>>)
    returns (r: VerifyResult<Hash>, ghost e: MonitorEvidence)
    requires n <= MAX_TREE_SIZE && forall p | p in leaves :: p < n
    ensures e.leaves == leaves && e.entries == entries
    ensures r.Ok? ==> AllHashes(inclusion) && RootFor(e, n, HashesOf(inclusion)) && r.value == e.root
    ensures forall b: MonitorEvidence | b.leaves == leaves && AllHashes(inclusion) && RootFor(b, n, HashesOf(inclusion)) ::
              r == Ok(b.root)
  {
    hide EvaluateBatch, SortedPairs;
    e := MonitorEvidence(leaves, entries, [], [], Opaque(0));
    if exists i | 0 <= i < |inclusion| :: inclusion[i] == None {
      return Err(BadData), e;
    }
    var proof := HashesOf(inclusion);
    if leaves == map[] {
      if |proof| != 1 {
        return Err(VerificationFailed), e;
      }
      e := e.(root := proof[0]);
      return Ok(proof[0]), e;
    }
    var ids, values := IntoSortedPairs(leaves);
    PairsWithin(leaves, ids, values);
    var result := EvaluateBatchProof(ids, n, values, proof);
    forall b: MonitorEvidence | b.leaves == leaves && RootFor(b, n, proof)
      ensures result == Ok(b.root)
    {
      SortedPairsUnique(leaves, ids, values, b.ids, b.values);
    }
    if result.Err? {
      return Err(VerificationFailed), e;
    }
    e := MonitorEvidence(leaves, entries, ids, values, result.value);
    return Ok(result.value), e;
  }

  lemma PairsWithin(leaves: map<nat, Hash>, ids: seq<nat>, values: seq<Hash>)
    requires SortedPairs(leaves, ids, values)
    ensures forall i | 0 <= i < |ids| :: ids[i] in leaves
  {
  }

  lemma GatheredBelow(req: MonitorRequest, proofs: seq<seq<ProofStep>>, data: KeyData, n: nat,
                      leaves: map<nat, Hash>, entries: seq<map<nat, ProofStep>>)
    requires |req.keys| == |proofs|
    requires Gathered(req, proofs, data, n, leaves, entries, |req.keys|)
    ensures forall p | p in leaves :: p < n
  {
    hide FullPath, KeyGathered;
    forall p | p in leaves
      ensures p < n
    {
      assert OnSomePath(p, req, n, |req.keys|);
      var j :| 0 <= j < |req.keys| && OnPathOf(p, req.keys[j], n);
      FullPathIs(req.keys[j].entryPosition, n);
    }
  }

  /** Everything demanded of a monitoring response. */
  ghost predicate MonitorAccepted(c: Client, req: MonitorRequest, res: MonitorResponse, data: KeyData, e: MonitorEvidence) {
    && MonitorInRange(req, res)
    && var n := res.treeHead.value.treeHead.value.treeSize;
    && MonitorHolds(req, res, data, n, e)
    && HeadAccepted(c.config, res.treeHead.value, e.root, c.last, c.distinguished, c.now, c.check)
  }

  /** Checking the response does not return. */
  ghost predicate MonitorStuck(req: MonitorRequest, res: MonitorResponse, data: KeyData) {
    MonitorInRange(req, res) && SomeStuck(req, res.proofs, data, res.treeHead.value.treeHead.value.treeSize)
  }

  /** Verify a monitoring response up to and including its tree head, for whatever size it claims.  It is
  accepted exactly when some evidence supports it, and checking it does not return exactly when it gets
  to a key whose path cannot be computed for that size. */
  method VerifyMonitorProof(c: Client, req: MonitorRequest, res: MonitorResponse, data: KeyData)
    returns (r: Option<VerifyResult<(LastTreeHead, seq<map<nat, ProofStep>>)>>, ghost e: MonitorEvidence)
    requires c.distinguished.Some?
    ensures r == None <==> MonitorStuck(req, res, data)
    ensures r.Some? && r.value.Ok? ==> MonitorAccepted(c, req, res, data, e)
    ensures r.Some? && r.value.Ok? ==>
              r.value.value == (LastTreeHead(res.treeHead.value.treeHead.value, e.root), e.entries)
    ensures r == None || r.value.Err? ==> forall b :: !MonitorAccepted(c, req, res, data, b)
  {
    hide Gathered, RootFor, HeadAccepted, SomeStuck;
    e := MonitorEvidence(map[], [], [], [], Opaque(0));
    if |req.keys| != |res.proofs| {
      return Some(Err(BadData)), e;
    }
    if res.treeHead == None || res.treeHead.value.treeHead == None {
      return Some(Err(RequiredFieldMissing)), e;
    }
    var n: u64 := res.treeHead.value.treeHead.value.treeSize;
    if n == 0 || n > MAX_TREE_SIZE {
      return Some(Err(VerificationFailed)), e;
    }
    var gathered := ProcessAll(req, res.proofs, data, n);
    if gathered == None {
      StuckIsNotAccepted(req, res.proofs, data, n);
      return None, e;
    }
    if gathered.value.Err? {
      return Some(Err(gathered.value.error)), e;
    }
    var (leaves, entries) := gathered.value.value;
    GatheredBelow(req, res.proofs, data, n, leaves, entries);
    var root;
    root, e := EvaluateRoot(leaves, entries, n, res.inclusion);
    forall b | MonitorAccepted(c, req, res, data, b)
      ensures root == Ok(b.root)
    {
      EvidenceUnique(req, res, data, n, leaves, entries, b);
    }
    if root.Err? {
      return Some(Err(root.error)), e;
    }
    var head := VerifyFullTreeHead(c.config, res.treeHead.value, root.value, c.last, c.distinguished, c.now, c.check);
    if head.Err? {
      return Some(Err(head.error)), e;
    }
    return Some(Ok((head.value, entries))), e;
  }

  lemma StuckIsNotAccepted(req: MonitorRequest, proofs: seq<seq<ProofStep>>, data: KeyData, n: nat)
    requires |req.keys| == |proofs| && SomeStuck(req, proofs, data, n)
    ensures forall leaves, entries :: !Gathered(req, proofs, data, n, leaves, entries, |req.keys|)
  {
    hide Gathered, KeyStuck;
    var i: nat :| StuckAt(req, proofs, data, n, i);
    forall leaves, entries
      ensures !Gathered(req, proofs, data, n, leaves, entries, |req.keys|)
    {
      if Gathered(req, proofs, data, n, leaves, entries, |req.keys|) {
        GatheredNotStuck(req, proofs, data, n, leaves, entries, i);
      }
    }
  }

  lemma GatheredNotStuck(req: MonitorRequest, proofs: seq<seq<ProofStep>>, data: KeyData, n: nat,
                         leaves: map<nat, Hash>, entries: seq<map<nat, ProofStep>>, i: nat)
    requires i < |req.keys| == |proofs| && Gathered(req, proofs, data, n, leaves, entries, |req.keys|)
    ensures !KeyStuck(req.keys[i], data, n)
  {
    hide FullPath, EntriesFor, OnSomePath, PathReturns;
    assert KeyGathered(req.keys[i], proofs[i], data, n, leaves, entries[i]);
  }

  /** For entries of their key's part of the log, which is what a client asks for, any size above all of
  them lets checking return. */
  lemma LargeTreeReturns(req: MonitorRequest, res: MonitorResponse, data: KeyData)
    requires MonitorInRange(req, res)
    requires forall i | 0 <= i < |req.keys| && req.keys[i].searchKey in data ::
               data[req.keys[i].searchKey].pos <= req.keys[i].entryPosition < res.treeHead.value.treeHead.value.treeSize
    ensures !MonitorStuck(req, res, data)
  {
    hide Gathered, PathReturns;
    var n := res.treeHead.value.treeHead.value.treeSize;
    forall j: nat | j < |req.keys|
      ensures !KeyStuck(req.keys[j], data, n)
    {
      if req.keys[j].searchKey in data {
        PathReturnsInside(req.keys[j].entryPosition, data[req.keys[j].searchKey].pos, n);
      }
    }
    NeverStuck(req, res.proofs, data, n);
  }

  /** A size at or below the entry of the first key does not: checking never returns, whatever the proofs,
  hashes and signatures are. */
  lemma SmallTreeDoesNotReturn(req: MonitorRequest, res: MonitorResponse, data: KeyData)
    requires MonitorInRange(req, res) && req.keys != [] && req.keys[0].searchKey in data
    requires res.treeHead.value.treeHead.value.treeSize <= req.keys[0].entryPosition
    ensures MonitorStuck(req, res, data)
  {
    hide Gathered, BelowRoot;
    var n := res.treeHead.value.treeHead.value.treeSize;
    GatheredNone(req, res.proofs, data, n);
    GotStuck(req, res.proofs, data, n, map[], [], 0);
  }

  /** Such a response exists: the key starts at position 0, entry 1 is monitored, and the size is 1. */
  lemma SmallTreeExists(key: seq<byte>, index: Key) returns (req: MonitorRequest, res: MonitorResponse, data: KeyData)
    ensures MonitorStuck(req, res, data)
  {
    hide MonitorStuck;
    data := map[key := MonitoringData(index, 0, map[1 := 0], false, [], 0)];
    req := MonitorRequest([MonitorKey(key, 1)], None);
    res := MonitorResponse(Some(FullTreeHead(Some(TreeHead(1, 0, [])), [], [], [])), [[]], []);
    SmallTreeDoesNotReturn(req, res, data);
  }

  // ---------------------------------------------------------------------------------------------
  // What acceptance means.

  /** Every entry is a position of the log, and shows the counter the log records there. */
  ghost predicate EntriesBound(entries: map<nat, ProofStep>, index: seq<byte>, pos: nat, log: seq<Hash>)
    requires IsKey(index)
  {
    forall p | p in entries :: EntryBound(p, entries[p], index, pos, log)
  }

  ghost predicate EntryBound(p: nat, step: ProofStep, index: seq<byte>, pos: nat, log: seq<Hash>)
    requires IsKey(index)
  {
    p < |log| && step.prefix.Some? && CounterAt(log[p], index, pos) == Some(step.prefix.value.counter)
  }

  /** The limits of an accepted response. */
  lemma MonitorLimits(c: Client, req: MonitorRequest, res: MonitorResponse, data: KeyData, e: MonitorEvidence)
    requires MonitorAccepted(c, req, res, data, e)
    ensures |res.proofs| == |req.keys| && res.treeHead.Some? && res.treeHead.value.treeHead.Some?
    ensures 1 <= res.treeHead.value.treeHead.value.treeSize <= 4_611_686_018_427_387_904
  {
    hide MonitorHolds, HeadAccepted;
  }

  /** If every key is monitored at the last entry there is nothing to show, and the one hash sent is taken
  for the root. */
  lemma NothingToInclude(req: MonitorRequest, res: MonitorResponse, data: KeyData, n: nat, e: MonitorEvidence)
    requires |req.keys| == |res.proofs| && MonitorHolds(req, res, data, n, e)
    requires forall i | 0 <= i < |req.keys| :: req.keys[i].entryPosition == n - 1
    ensures res.inclusion == [Some(e.root)] && forall i | 0 <= i < |res.proofs| :: res.proofs[i] == []
  {
    hide FullPath, EntriesFor, StepHolds, PathReturns, EvaluateBatch, SortedPairs;
    forall i | 0 <= i < |req.keys|
      ensures res.proofs[i] == [] && forall p :: !OnPathOf(p, req.keys[i], n)
    {
      assert KeyGathered(req.keys[i], res.proofs[i], data, n, e.leaves, e.entries[i]);
      PathReturnsBelow(req.keys[i].entryPosition, data[req.keys[i].searchKey].pos, n);
      FullPathIs(req.keys[i].entryPosition, n);
    }
    assert forall p: nat :: !OnSomePath(p, req, n, |req.keys|);
    assert e.leaves == map[];
    assert HashesOf(res.inclusion) == [e.root];
    assert res.inclusion[0] == Some(e.root);
  }

  /** Against any log with the computed root, honest or not: what the response shows for each key at
  each position of its monitoring path is what the log records there. */
  lemma MonitorIsSound(req: MonitorRequest, res: MonitorResponse, data: KeyData, e: MonitorEvidence, log: seq<Hash>, i: nat)
    requires log != [] && |req.keys| == |res.proofs|
    requires MonitorHolds(req, res, data, |log|, e) && e.root == RootOf(log)
    requires i < |req.keys|
    ensures req.keys[i].searchKey in data && i < |e.entries| && req.keys[i].entryPosition < |log|
    ensures var d := data[req.keys[i].searchKey]; EntriesBound(e.entries[i], d.index, d.pos, log)
    ensures forall p :: p in e.entries[i] <==> p in FullPath(req.keys[i].entryPosition, |log|)
  {
    hide FullPath, RootOf, EvaluateBatch, SortedPairs, StepLeaf, CounterAt, OnSomePath;
    var key, proof, entries := req.keys[i], res.proofs[i], e.entries[i];
    assert KeyGathered(key, proof, data, |log|, e.leaves, entries);
    var d, path := data[key.searchKey], FullPath(key.entryPosition, |log|);
    forall p | p in entries
      ensures EntryBound(p, entries[p], d.index, d.pos, log)
    {
      var k :| 0 <= k < |path| && path[k] == p;
      assert StepHolds(d, path[k], proof[k], e.leaves);
      IncludedLeaf(e.leaves, e.ids, e.values, HashesOf(res.inclusion), log, p);
      StepBinds(d.index, d.pos, proof[k]);
    }
  }
}
