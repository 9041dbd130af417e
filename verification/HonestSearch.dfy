/** An honest server can always answer: the proof it builds from its log is accepted. */
module HonestSearch {
  import opened Wrappers
  import opened Bits
  import opened Hashes
  import opened Merkle
  import opened LogTree
  import opened BatchCopath
  import opened ConsistencyProof
  import opened BatchProof
  import opened Prefix
  import opened Monitor
  import opened Guide
  import opened Search

  /** The step a log entry gives rise to, for a key it records. */
  function StepFrom(leaf: Hash, index: Key): ProofStep
    requires leaf.LogLeaf? && Prefix.Stored(leaf.prefixRoot, index).Some?
  {
    var counter := Prefix.Stored(leaf.prefixRoot, index).value.0;
    ProofStep(Some(PrefixProof(counter, SiblingsBelow(leaf.prefixRoot, index, 0))), Some(leaf.commitment))
  }

  lemma StepFromStandsForLeaf(leaf: Hash, index: Key, counter: nat, pos: nat)
    requires RecordAt(leaf, index, Some((counter, pos)))
    ensures StepLeaf(index, pos, StepFrom(leaf, index)) == Some(leaf)
    ensures StepFrom(leaf, index).prefix.value.counter == counter
  {
    hide EvaluateSpec, SiblingsBelow, Follow;
    PrefixIsBinding(index, pos, StepFrom(leaf, index).prefix.value, leaf.prefixRoot);
  }

  /** The steps for what was fetched, each standing for the log's own entry. */
  method StepsFrom(index: Key, log: seq<Hash>, start: nat, fetched: seq<VersionedId>, ghost c: nat -> nat)
    returns (steps: seq<ProofStep>, leafOf: seq<Option<Hash>>)
    requires KeyHistory(log, index, start, c) && Agrees(fetched, c)
    requires forall k | 0 <= k < |fetched| :: start <= fetched[k].id < |log|
    ensures |steps| == |fetched| == |leafOf|
    ensures forall k | 0 <= k < |fetched| ::
              && StepLeaf(index, start, steps[k]) == Some(log[fetched[k].id]) == leafOf[k]
              && steps[k].prefix.Some? && steps[k].prefix.value.counter == fetched[k].version
  {
    hide StepLeaf, Prefix.Stored, StepFrom, NonDecreasing;
    steps, leafOf := [], [];
    for i := 0 to |fetched|
      invariant |steps| == i == |leafOf|
      invariant forall k | 0 <= k < i ::
                  && StepLeaf(index, start, steps[k]) == Some(log[fetched[k].id]) == leafOf[k]
                  && steps[k].prefix.Some? && steps[k].prefix.value.counter == fetched[k].version
    {
      var id := fetched[i].id;
      assert RecordAt(log[id], index, if id < start then None else Some((c(id), start)));
      StepFromStandsForLeaf(log[id], index, c(id), start);
      StepLeafHasPrefix(index, start, StepFrom(log[id], index));
      steps := steps + [StepFrom(log[id], index)];
      leafOf := leafOf + [Some(log[id])];
    }
  }

  lemma StepLeafHasPrefix(index: Key, pos: nat, step: ProofStep)
    ensures StepLeaf(index, pos, step).Some? ==> step.prefix.Some?
  {
  }

  /** Search the log for the version and collect the proof.  Whenever the log's counters for the key never
  fall and it holds the version asked for, the proof is one that holds, with the root of the log. */
  method AnswerSearch(index: Key, request: Option<nat>, log: seq<Hash>, start: u64, c: nat -> nat)
    returns (proof: SearchProof, found: nat, ghost e: Evidence)
    requires start < |log| <= MAX_TREE_SIZE && KeyHistory(log, index, start, c)
    requires request.Some? ==> exists y | start <= y < |log| :: c(y) == request.value
    ensures proof.pos == start && ProofHolds(index, proof, request, |log|, e) && e.root == RootOf(log)
    ensures found == e.trace.first
  {
    hide Ran, ProofHolds, StepLeaf, RootOf, Copath, HonestValues, KeyHistory, SortedPairs, Ends, Complains, Asks, Followed,
         Has, Log2, Monotonic, HonestHash;
    var n: u64 := |log|;
    var step := (k: nat, id: nat) => Some(c(id));
    var guide := NewGuide(request, start, n);
    ghost var version: nat, first: nat;
    var answer: Answer, fetched: seq<VersionedId>;
    answer, fetched, version, first := Consume(guide, step);
    FetchedAgrees(fetched, step, c);
    var steps, leafOf := StepsFrom(index, log, start, fetched, c);
    var plain := SearchProof(start, steps, []);
    ghost var t := Trace(answer, fetched, version, first);
    TraceRan(index, plain, request, n, t, step);
    var leaves, byId := Collect(index, plain, fetched, leafOf);
    var ids, values := IntoSortedPairs(leaves);
    PairsBelow(index, plain, n, fetched, leaves, ids, values);
    FoundSome(index, plain, request, n, t);
    IdsAreLeaves(index, plain, fetched, leaves, ids, values);
    var copath := ComputeCopath(ids, n);
    CopathAreNodes(ids, n);
    var inclusion := Wrapped(HonestValues(copath, log));
    proof := SearchProof(start, steps, inclusion);
    e := Evidence(t, leaves, ids, values, RootOf(log));
    SameSteps(index, plain, proof, request, n, t, leaves);
    assert HashesOf(inclusion) == HonestValues(copath, log);
    SearchIsComplete(index, proof, request, log, c, e);
    HoldsFound(index, proof, request, n, e);
    found := answer.id;
  }

  lemma HoldsFound(index: Key, proof: SearchProof, request: Option<nat>, n: nat, e: Evidence)
    requires ProofHolds(index, proof, request, n, e)
    ensures e.trace.answer.Found? && e.trace.answer.id == e.trace.first
  {
    hide Ran, EvaluateBatch, SortedPairs, LeavesOf;
    RanFacts(index, proof, request, n, e.trace);
  }

  function Wrapped(hashes: seq<Hash>): (proof: seq<Option<Hash>>)
    ensures |proof| == |hashes| && AllHashes(proof) && HashesOf(proof) == hashes
  {
    seq(|hashes|, i requires 0 <= i < |hashes| => Some(hashes[i]))
  }

  /** A search that is always answered does not fail. */
  lemma TraceRan(index: Key, proof: SearchProof, request: Option<nat>, n: nat, t: Trace, step: (nat, nat) -> Option<nat>)
    requires proof.pos < n && |t.fetched| == |proof.steps| && DistinctIds(t.fetched) && |t.fetched| <= 2 * Log2(n) + 1
    requires forall k | 0 <= k < |t.fetched| ::
               && proof.pos <= t.fetched[k].id < n && StepLeaf(index, proof.pos, proof.steps[k]).Some?
               && proof.steps[k].prefix.Some? && proof.steps[k].prefix.value.counter == t.fetched[k].version
    requires Followed(request, t.fetched, proof.pos, n)
    requires t.answer.Found? || t.answer.NotFound? ==> Ends(request, t.fetched, t.version, t.first, proof.pos, n)
    requires t.answer.Found? ==>
               t.answer.index < |t.fetched| && t.answer.id == t.first && t.fetched[t.answer.index] == VersionedId(t.first, t.version)
    requires t.answer.NotFound? ==> !Has(t.fetched, t.first, t.version)
    requires t.answer.NotMonotonic? ==> Complains(request, t.fetched, proof.pos, n)
    requires t.answer.StepFailed? ==> exists id: nat :: Asks(request, t.fetched, proof.pos, n, id) && step(|t.fetched|, id) == None
    requires forall k: nat, id: nat :: step(k, id).Some?
    ensures Ran(index, proof, request, n, t) && !t.answer.StepFailed?
  {
    hide StepLeaf, Ends, Complains, Asks, Followed, Has, Log2;
  }

  lemma FoundSome(index: Key, proof: SearchProof, request: Option<nat>, n: nat, t: Trace)
    requires Ran(index, proof, request, n, t) && !t.answer.StepFailed?
    ensures t.fetched != []
  {
    hide StepLeaf, Followed, Log2, Below, AtLeast, DistinctIds, Monotonic;
    if t.answer.Found? || t.answer.NotFound? {
      if t.first == proof.pos { assert AtLeast(t.fetched, t.first, t.version); } else { assert Below(t.fetched, t.first - 1, t.version); }
      SomethingFetched(t.fetched, t.first, t.version);
    } else {
      MonotonicNone();
    }
  }

  lemma SomethingFetched(fetched: seq<VersionedId>, first: nat, version: nat)
    requires AtLeast(fetched, first, version) || (first > 0 && Below(fetched, first - 1, version))
    ensures fetched != []
  {
  }

  lemma MonotonicNone()
    ensures Monotonic([])
  {
  }

  lemma IdsAreLeaves(index: Key, proof: SearchProof, fetched: seq<VersionedId>, leaves: map<nat, Hash>, ids: seq<nat>, values: seq<Hash>)
    requires 1 <= |fetched| <= |proof.steps| && LeavesOf(index, proof, fetched, leaves) && SortedPairs(leaves, ids, values)
    ensures ids != [] && Distinct(ids)
  {
    hide StepLeaf;
    assert fetched[0].id in leaves;
  }

  lemma SameSteps(index: Key, a: SearchProof, b: SearchProof, request: Option<nat>, n: nat, t: Trace, leaves: map<nat, Hash>)
    requires a.pos == b.pos && a.steps == b.steps && Ran(index, a, request, n, t)
    requires |t.fetched| <= |a.steps| && LeavesOf(index, a, t.fetched, leaves)
    ensures Ran(index, b, request, n, t) && LeavesOf(index, b, t.fetched, leaves)
  {
    hide StepLeaf, Ends, Complains, Asks, Followed, Has, Log2, DistinctIds;
    forall k | 0 <= k < |t.fetched|
      ensures StepAt(index, b, n, t.fetched[k], k)
    {
      assert StepAt(index, a, n, t.fetched[k], k);
    }
  }
}
