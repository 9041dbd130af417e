/** Verifying a search response, and what acceptance says about the log. */
module Search {
  import opened Wrappers
  import opened Bits
  import opened LogTree
  import opened Hashes
  import opened Merkle
  import opened Sorting
  import opened BatchCopath
  import opened ConsistencyProof
  import opened BatchProof
  import opened Prefix
  import opened Heads
  import opened Monitor
  import opened Guide

  const OPENING_LENGTH := 16
  const VALUE_LIMIT := 0x1_0000_0000
  const KEY_LIMIT := 0x1_0000

  /** The bytes of the search key "distinguished". */
  const DISTINGUISHED: seq<byte> := [100, 105, 115, 116, 105, 110, 103, 117, 105, 115, 104, 101, 100]

  datatype SearchRequest = SearchRequest(searchKey: seq<byte>, version: Option<nat>)

  datatype SearchProof = SearchProof(pos: u64, steps: seq<ProofStep>, inclusion: seq<Option<Hash>>)

  datatype SearchResponse = SearchResponse(
    vrfProof: seq<byte>,
    search: Option<SearchProof>,
    opening: seq<byte>,
    value: Option<seq<byte>>,
    treeHead: FullTreeHead)

  // ---------------------------------------------------------------------------------------------
  // One proof step.

  /** The log leaf a proof step stands for, if the step is well formed. */
  ghost function StepLeaf(index: seq<byte>, pos: nat, step: ProofStep): Option<Hash>
    requires IsKey(index)
  {
    if step.prefix == None || step.commitment == None then None
    else match EvaluateSpec(index, pos, step.prefix.value)
      case None => None
      case Some(root) => Some(LogLeaf(root, step.commitment.value))
  }

  method EvaluateStep(index: seq<byte>, pos: nat, step: ProofStep) returns (leaf: Option<Hash>)
    requires IsKey(index)
    ensures leaf == StepLeaf(index, pos, step)
  {
    hide EvaluateSpec;
    if step.prefix == None {
      return None;
    }
    var root := Evaluate(index, pos, step.prefix.value);
    if root == None || step.commitment == None {
      return None;
    }
    return Some(LogLeaf(root.value, step.commitment.value));
  }

  method EvaluateSteps(index: seq<byte>, pos: nat, steps: seq<ProofStep>) returns (leaves: seq<Option<Hash>>)
    requires IsKey(index)
    ensures |leaves| == |steps| && forall k | 0 <= k < |steps| :: leaves[k] == StepLeaf(index, pos, steps[k])
  {
    hide StepLeaf;
    leaves := [];
    for k := 0 to |steps|
      invariant |leaves| == k && forall j | 0 <= j < k :: leaves[j] == StepLeaf(index, pos, steps[j])
    {
      var leaf := EvaluateStep(index, pos, steps[k]);
      leaves := leaves + [leaf];
    }
  }

  /** The counter a log leaf records for a key that first appeared at pos. */
  function CounterAt(leaf: Hash, index: seq<byte>, pos: nat): Option<nat>
    requires IsKey(index)
  {
    if !leaf.LogLeaf? then None
    else match Prefix.Stored(leaf.prefixRoot, index)
      case None => None
      case Some((counter, p)) => if p == pos then Some(counter) else None
  }

  /** A well-formed step binds its leaf to the counter and commitment it shows. */
  lemma StepBinds(index: seq<byte>, pos: nat, step: ProofStep)
    requires IsKey(index) && StepLeaf(index, pos, step).Some?
    ensures var leaf := StepLeaf(index, pos, step).value;
            && leaf.LogLeaf? && Some(leaf.commitment) == step.commitment && step.prefix.Some?
            && Prefix.Stored(leaf.prefixRoot, index) == Some((step.prefix.value.counter, pos))
            && CounterAt(leaf, index, pos) == Some(step.prefix.value.counter)
  {
    hide EvaluateSpec, Prefix.Stored, SiblingsBelow;
    var leaf := StepLeaf(index, pos, step).value;
    PrefixIsBinding(index, pos, step.prefix.value, leaf.prefixRoot);
  }

  // ---------------------------------------------------------------------------------------------
  // A batch of leaves.

  /** The entries of a map in order of position. */
  ghost predicate SortedPairs(leaves: map<nat, Hash>, ids: seq<nat>, values: seq<Hash>) {
    && Increasing(ids) && |ids| == |values|
    && (forall i | 0 <= i < |ids| :: ids[i] in leaves && values[i] == leaves[ids[i]])
    && (forall p | p in leaves :: p in ids)
  }

  method KeysOf(leaves: map<nat, Hash>) returns (keys: seq<nat>)
    ensures Distinct(keys) && forall p :: p in keys <==> p in leaves
  {
    keys := [];
    var remaining := leaves.Keys;
    while remaining != {}
      invariant remaining <= leaves.Keys && Distinct(keys)
      invariant forall p :: p in keys <==> p in leaves && p !in remaining
      decreases |remaining|
    {
      var p :| p in remaining;
      keys := keys + [p];
      remaining := remaining - {p};
    }
  }

  method IntoSortedPairs(leaves: map<nat, Hash>) returns (ids: seq<nat>, values: seq<Hash>)
    ensures SortedPairs(leaves, ids, values)
  {
    hide Sort;
    var keys := KeysOf(leaves);
    SortDistinct(keys);
    ids := Sort(keys);
    assert forall p :: p in ToSet(ids) <==> p in ids;
    assert forall p :: p in ToSet(keys) <==> p in keys;
    values := [];
    for i := 0 to |ids|
      invariant |values| == i
      invariant forall j | 0 <= j < i :: ids[j] in leaves && values[j] == leaves[ids[j]]
    {
      assert ids[i] in ids;
      values := values + [leaves[ids[i]]];
    }
  }

  lemma SortedPairsUnique(leaves: map<nat, Hash>, ids: seq<nat>, values: seq<Hash>, ids': seq<nat>, values': seq<Hash>)
    requires SortedPairs(leaves, ids, values) && SortedPairs(leaves, ids', values')
    ensures ids == ids' && values == values'
  {
    assert forall p :: p in ids <==> p in leaves;
    assert forall p :: p in ids' <==> p in leaves;
    SameElementsSame(ids, ids');
  }

  /** A batch of leaves that evaluates to the root of a log holds that log's own entries. */
  lemma IncludedLeaf(leaves: map<nat, Hash>, ids: seq<nat>, values: seq<Hash>, inclusion: seq<Hash>, log: seq<Hash>, p: nat)
    requires SortedPairs(leaves, ids, values) && p in leaves && log != []
    requires EvaluateBatch(ids, |log|, values, inclusion) == Ok(RootOf(log))
    ensures p < |log| && log[p] == leaves[p]
  {
    hide EvaluateBatch, RootOf, Copath, HonestValues, IncreasingNeighbours;
    BatchAlwaysEvaluates(ids, |log|, values, inclusion);
    WellFormedBelow(ids, |log|);
    BatchIsExact(ids, |log|, values, inclusion, log);
    var i :| 0 <= i < |ids| && ids[i] == p;
    assert values[i] == Selected(ids, log)[i];
  }

  // ---------------------------------------------------------------------------------------------
  // The guided search over the steps of a proof.

  /** How the search went: its answer, what it fetched, the version it looked for and where it ended. */
  datatype Trace = Trace(answer: Answer, fetched: seq<VersionedId>, version: nat, first: nat)

  /** Step k was consumed for this id and showed this counter. */
  ghost predicate StepAt(index: seq<byte>, proof: SearchProof, n: nat, e: VersionedId, k: nat)
    requires IsKey(index)
  {
    && k < |proof.steps| && proof.pos <= e.id < n
    && StepLeaf(index, proof.pos, proof.steps[k]).Some?
    && proof.steps[k].prefix.value.counter == e.version
  }

  /** A run of the search: every step was consumed for the id the guide asked for, and the answer says
  how it ended. */
  ghost predicate Ran(index: seq<byte>, proof: SearchProof, request: Option<nat>, n: nat, t: Trace)
    requires IsKey(index)
  {
    && proof.pos < n && |t.fetched| <= |proof.steps| && DistinctIds(t.fetched) && |t.fetched| <= 2 * Log2(n) + 1
    && (forall k | 0 <= k < |t.fetched| :: StepAt(index, proof, n, t.fetched[k], k))
    && Followed(request, t.fetched, proof.pos, n)
    && match t.answer
       case Found(at, id) =>
         && Ends(request, t.fetched, t.version, t.first, proof.pos, n)
         && id == t.first && at < |t.fetched| && t.fetched[at] == VersionedId(t.first, t.version)
       case NotFound =>
         && Ends(request, t.fetched, t.version, t.first, proof.pos, n)
         && !Has(t.fetched, t.first, t.version)
       case NotMonotonic => Complains(request, t.fetched, proof.pos, n)
       case StepFailed =>
         && (exists id: nat :: Asks(request, t.fetched, proof.pos, n, id))
         && (|t.fetched| == |proof.steps| || StepLeaf(index, proof.pos, proof.steps[|t.fetched|]) == None)
  }

  method RunSearch(index: seq<byte>, proof: SearchProof, request: Option<nat>, n: u64)
    returns (answer: Answer, fetched: seq<VersionedId>, leaves: seq<Option<Hash>>, ghost t: Trace)
    requires IsKey(index) && proof.pos < n <= MAX_TREE_SIZE
    ensures Ran(index, proof, request, n, t) && t.answer == answer && t.fetched == fetched
    ensures |leaves| == |proof.steps|
    ensures forall k | 0 <= k < |leaves| :: leaves[k] == StepLeaf(index, proof.pos, proof.steps[k])
  {
    hide StepLeaf, Ends, Complains, Asks, Followed, Has, Log2;
    leaves := EvaluateSteps(index, proof.pos, proof.steps);
    StepsHavePrefix(index, proof);
    var steps := proof.steps;
    var step := (k: nat, id: nat) =>
      if k < |leaves| && leaves[k].Some? && k < |steps| && steps[k].prefix.Some?
      then Some(steps[k].prefix.value.counter) else None;
    var guide := NewGuide(request, proof.pos, n);
    ghost var version: nat, first: nat;
    answer, fetched, version, first := Consume(guide, step);
    t := Trace(answer, fetched, version, first);
    FetchedSteps(index, proof, n, fetched, step);
  }

  lemma StepsHavePrefix(index: seq<byte>, proof: SearchProof)
    requires IsKey(index)
    ensures forall k | 0 <= k < |proof.steps| ::
              StepLeaf(index, proof.pos, proof.steps[k]).Some? ==> proof.steps[k].prefix.Some?
  {
  }

  lemma FetchedSteps(index: seq<byte>, proof: SearchProof, n: nat, fetched: seq<VersionedId>, step: (nat, nat) -> Option<nat>)
    requires IsKey(index) && FetchedBy(fetched, step)
    requires forall k | 0 <= k < |fetched| :: proof.pos <= fetched[k].id < n
    requires forall k: nat, id: nat :: step(k, id) ==
               if k < |proof.steps| && StepLeaf(index, proof.pos, proof.steps[k]).Some? && proof.steps[k].prefix.Some?
               then Some(proof.steps[k].prefix.value.counter) else None
    ensures |fetched| <= |proof.steps|
    ensures forall k | 0 <= k < |fetched| :: StepAt(index, proof, n, fetched[k], k)
  {
    hide StepLeaf;
    forall k | 0 <= k < |fetched|
      ensures StepAt(index, proof, n, fetched[k], k)
    {
      assert step(k, fetched[k].id) == Some(fetched[k].version);
    }
    if fetched != [] {
      assert StepAt(index, proof, n, fetched[|fetched| - 1], |fetched| - 1);
    }
  }

  // ---------------------------------------------------------------------------------------------
  // The whole response.

  /** What the client brings: configuration, stored heads, clock, signature check and key hashing. */
  datatype Client = Client(
    config: PublicConfig,
    last: Option<LastTreeHead>,
    distinguished: Option<LastTreeHead>,
    now: int,
    check: SignatureCheck,
    indexOf: seq<byte> -> seq<byte>)

  /** A value as committed to: its length in four bytes, most significant first, and its bytes. */
  function Marshal(value: seq<byte>): seq<byte>
    requires |value| < VALUE_LIMIT
  {
    [|value| / 0x100_0000, |value| / 0x1_0000 % 0x100, |value| / 0x100 % 0x100, |value| % 0x100] + value
  }

  /** The first four bytes are the length, most significant first, and the rest is the value. */
  lemma MarshalMeans(value: seq<byte>)
    requires |value| < VALUE_LIMIT
    ensures var m := Marshal(value);
            && |m| == 4 + |value| && m[4..] == value
            && (m[0] as int) * 16_777_216 + (m[1] as int) * 65_536 + (m[2] as int) * 256 + m[3] as int == |value|
  {
    var n := |value|;
    var a, b, c := n / 0x100, n / 0x1_0000, n / 0x100_0000;
    assert n == a * 0x100 + n % 0x100;
    assert a == b * 0x100 + a % 0x100;
    assert b == c * 0x100 + b % 0x100;
  }

  lemma MarshalIsInjective(a: seq<byte>, b: seq<byte>)
    requires |a| < VALUE_LIMIT && |b| < VALUE_LIMIT && Marshal(a) == Marshal(b)
    ensures a == b
  {
    assert Marshal(a)[4..] == a && Marshal(b)[4..] == b;
  }

  /** The leaves handed to the inclusion proof are exactly those of the fetched steps. */
  ghost predicate LeavesOf(index: seq<byte>, proof: SearchProof, fetched: seq<VersionedId>, leaves: map<nat, Hash>)
    requires IsKey(index) && |fetched| <= |proof.steps|
  {
    && (forall k | 0 <= k < |fetched| ::
          fetched[k].id in leaves && StepLeaf(index, proof.pos, proof.steps[k]) == Some(leaves[fetched[k].id]))
    && (forall p | p in leaves :: FetchedId(fetched, p))
  }

  ghost predicate FetchedId(fetched: seq<VersionedId>, p: nat) {
    exists k | 0 <= k < |fetched| :: fetched[k].id == p
  }

  /** The steps by the position they were fetched for. */
  ghost predicate StepsOf(proof: SearchProof, fetched: seq<VersionedId>, steps: map<nat, ProofStep>)
    requires |fetched| <= |proof.steps|
  {
    && (forall k | 0 <= k < |fetched| :: fetched[k].id in steps && steps[fetched[k].id] == proof.steps[k])
    && (forall p | p in steps :: FetchedId(fetched, p))
  }

  method Collect(ghost index: seq<byte>, proof: SearchProof, fetched: seq<VersionedId>, leafOf: seq<Option<Hash>>)
    returns (leaves: map<nat, Hash>, steps: map<nat, ProofStep>)
    requires IsKey(index) && |fetched| <= |proof.steps| == |leafOf| && DistinctIds(fetched)
    requires forall k | 0 <= k < |leafOf| :: leafOf[k] == StepLeaf(index, proof.pos, proof.steps[k])
    requires forall k | 0 <= k < |fetched| :: leafOf[k].Some?
    ensures LeavesOf(index, proof, fetched, leaves) && StepsOf(proof, fetched, steps)
  {
    hide StepLeaf;
    leaves, steps := map[], map[];
    for i := 0 to |fetched|
      invariant forall k | 0 <= k < i :: fetched[k].id in leaves && leaves[fetched[k].id] == leafOf[k].value
      invariant forall k | 0 <= k < i :: fetched[k].id in steps && steps[fetched[k].id] == proof.steps[k]
      invariant forall p | p in leaves || p in steps :: FetchedId(fetched, p)
    {
      assert forall k | 0 <= k < i :: fetched[k].id != fetched[i].id;
      assert FetchedId(fetched, fetched[i].id);
      leaves := leaves[fetched[i].id := leafOf[i].value];
      steps := steps[fetched[i].id := proof.steps[i]];
    }
  }

  /** What a search leaves behind: the guided search, the batch of leaves, and the root computed. */
  datatype Evidence = Evidence(trace: Trace, leaves: map<nat, Hash>, ids: seq<nat>, values: seq<Hash>, root: Hash)

  /** The proof part: the guided search found its version, used up the steps, and the batch of their
  leaves evaluates to the root. */
  ghost predicate ProofHolds(index: seq<byte>, proof: SearchProof, request: Option<nat>, n: nat, e: Evidence)
    requires IsKey(index)
  {
    && Ran(index, proof, request, n, e.trace) && e.trace.answer.Found?
    && |e.trace.fetched| == |proof.steps|
    && LeavesOf(index, proof, e.trace.fetched, e.leaves) && SortedPairs(e.leaves, e.ids, e.values)
    && AllHashes(proof.inclusion)
    && EvaluateBatch(e.ids, n, e.values, HashesOf(proof.inclusion)) == Ok(e.root)
  }

  /** The commitment can be computed: the key's length fits 16 bits and the marshalled value's 32.  The
  source panics otherwise. */
  predicate CommitReturns(searchKey: seq<byte>, value: seq<byte>) {
    |searchKey| < KEY_LIMIT && |value| + 4 < VALUE_LIMIT
  }

  /** There is a value and an opening of the right length to compute the commitment from. */
  predicate Openable(res: SearchResponse) {
    res.value.Some? && |res.value.value| < VALUE_LIMIT && |res.opening| == OPENING_LENGTH
  }

  /** The opening part: the step found commits to the value for the key. */
  ghost predicate Opened(searchKey: seq<byte>, res: SearchResponse, at: nat)
    requires res.search.Some? && at < |res.search.value.steps|
  {
    && Openable(res) && CommitReturns(searchKey, res.value.value)
    && res.search.value.steps[at].commitment == Some(Commitment(res.opening, searchKey, Marshal(res.value.value)))
  }

  /** Everything demanded of a search response. */
  ghost predicate SearchAccepted(c: Client, req: SearchRequest, res: SearchResponse, e: Evidence)
    requires IsKey(c.indexOf(req.searchKey))
  {
    && InRange(res)
    && ProofHolds(c.indexOf(req.searchKey), res.search.value, req.version, res.treeHead.treeHead.value.treeSize, e)
    && Opened(req.searchKey, res, e.trace.answer.index)
    && HeadAccepted(c.config, res.treeHead, e.root, c.last, c.distinguished, c.now, c.check)
  }

  /** The sizes a response may claim, checked before any tree arithmetic. */
  predicate InRange(res: SearchResponse) {
    && res.vrfProof == [] && res.treeHead.treeHead.Some? && res.search.Some?
    && 0 < res.treeHead.treeHead.value.treeSize <= MAX_TREE_SIZE
    && res.search.value.pos < res.treeHead.treeHead.value.treeSize
  }

  /** What an accepted search hands on to the monitoring data. */
  datatype VerifiedSearch = VerifiedSearch(
    head: LastTreeHead, index: Key, pos: u64, id: u64, version: nat, size: u64, steps: map<nat, ProofStep>)

  ghost predicate Describes(v: VerifiedSearch, c: Client, req: SearchRequest, res: SearchResponse, e: Evidence)
    requires IsKey(c.indexOf(req.searchKey)) && SearchAccepted(c, req, res, e)
  {
    && v.head == LastTreeHead(res.treeHead.treeHead.value, e.root)
    && v.index == c.indexOf(req.searchKey) && v.pos == res.search.value.pos
    && v.id == e.trace.first && v.version == e.trace.version
    && v.size == (if req.searchKey == DISTINGUISHED then v.id + 1 else v.head.head.treeSize)
    && StepsOf(res.search.value, e.trace.fetched, v.steps)
  }

  /** Evaluate the proof to a candidate root. */
  method EvaluateSearch(index: seq<byte>, proof: SearchProof, request: Option<nat>, n: u64)
    returns (r: VerifyResult<(nat, u64)>, root: Hash, steps: map<nat, ProofStep>, ghost e: Evidence)
    requires IsKey(index) && proof.pos < n <= MAX_TREE_SIZE
    ensures r.Ok? ==> ProofHolds(index, proof, request, n, e)
    ensures r.Err? ==> forall b :: !ProofHolds(index, proof, request, n, b)
    ensures r.Ok? ==> r.value == (e.trace.answer.index, e.trace.first) && root == e.root
    ensures r.Ok? ==> StepsOf(proof, e.trace.fetched, steps)
  {
    hide Ran, EvaluateBatch, SortedPairs, StepLeaf, StepsOf, LeavesOf;
    root, steps := Opaque(0), map[];
    var answer, fetched, leafOf, t := RunSearch(index, proof, request, n);
    RanFacts(index, proof, request, n, t);
    e := Evidence(t, map[], [], [], root);
    forall b | ProofHolds(index, proof, request, n, b)
      ensures b.trace.fetched == fetched && b.trace.answer == answer
    {
      RanOnce(index, proof, request, n, t, b.trace);
    }
    if answer.StepFailed? || answer.NotMonotonic? || |fetched| != |proof.steps| {
      return Err(VerificationFailed), root, steps, e;
    }
    if exists i | 0 <= i < |proof.inclusion| :: proof.inclusion[i] == None {
      return Err(BadData), root, steps, e;
    }
    var leaves: map<nat, Hash>;
    leaves, steps := Collect(index, proof, fetched, leafOf);
    var ids, values := IntoSortedPairs(leaves);
    PairsBelow(index, proof, n, fetched, leaves, ids, values);
    var result := EvaluateBatchProof(ids, n, values, HashesOf(proof.inclusion));
    forall b | ProofHolds(index, proof, request, n, b)
      ensures result == Ok(b.root)
    {
      LeavesOnce(index, proof, fetched, leaves, b.leaves);
      SortedPairsUnique(leaves, ids, values, b.ids, b.values);
    }
    if result.Err? {
      return Err(VerificationFailed), root, steps, e;
    }
    root := result.value;
    e := Evidence(t, leaves, ids, values, root);
    if !answer.Found? {
      return Err(VerificationFailed), root, steps, e;
    }
    return Ok((answer.index, answer.id)), root, steps, e;
  }

  lemma LeavesOnce(index: seq<byte>, proof: SearchProof, fetched: seq<VersionedId>, a: map<nat, Hash>, b: map<nat, Hash>)
    requires IsKey(index) && |fetched| <= |proof.steps|
    requires LeavesOf(index, proof, fetched, a) && LeavesOf(index, proof, fetched, b)
    ensures a == b
  {
    hide StepLeaf;
    forall p
      ensures (p in a <==> p in b) && (p in a ==> a[p] == b[p])
    {
      if p in a || p in b {
        assert FetchedId(fetched, p);
        var k :| 0 <= k < |fetched| && fetched[k].id == p;
      }
    }
  }

  /** The steps alone decide how the search goes. */
  lemma RanOnce(index: seq<byte>, proof: SearchProof, request: Option<nat>, n: nat, t: Trace, u: Trace)
    requires IsKey(index) && Ran(index, proof, request, n, t) && Ran(index, proof, request, n, u)
    ensures t.fetched == u.fetched && t.answer == u.answer
    ensures t.answer.Found? ==> t == u
  {
    hide StepLeaf, Ends, Complains, Asks, Followed, Has, Log2, DistinctIds;
    if |t.fetched| <= |u.fetched| { RanNoLonger(index, proof, request, n, t, u); } else { RanNoLonger(index, proof, request, n, u, t); }
    AnswersAgree(index, proof, request, n, t, u);
  }

  lemma SameCounters(index: seq<byte>, proof: SearchProof, request: Option<nat>, n: nat, t: Trace, u: Trace)
    requires IsKey(index) && Ran(index, proof, request, n, t) && Ran(index, proof, request, n, u)
    requires |t.fetched| <= |u.fetched|
    ensures forall i | 0 <= i < |t.fetched| :: t.fetched[i].version == u.fetched[i].version
  {
    hide StepLeaf, Ends, Complains, Asks, Followed, Has, Log2, DistinctIds;
    forall i | 0 <= i < |t.fetched|
      ensures t.fetched[i].version == u.fetched[i].version
    {
      assert StepAt(index, proof, n, t.fetched[i], i) && StepAt(index, proof, n, u.fetched[i], i);
    }
  }

  lemma RanNoLonger(index: seq<byte>, proof: SearchProof, request: Option<nat>, n: nat, t: Trace, u: Trace)
    requires IsKey(index) && Ran(index, proof, request, n, t) && Ran(index, proof, request, n, u)
    requires |t.fetched| <= |u.fetched|
    ensures t.fetched == u.fetched
  {
    hide StepLeaf, Ends, Complains, Asks, Has, Log2, DistinctIds;
    var k := |t.fetched|;
    SameCounters(index, proof, request, n, t, u);
    FetchesTheSame(request, t.fetched, u.fetched, proof.pos, n, k);
    assert t.fetched[..k] == t.fetched;
    if k < |u.fetched| {
      assert AskedAt(request, u.fetched, proof.pos, n, k);
      assert StepAt(index, proof, n, u.fetched[k], k);
      AsksOrEnds(request, t.fetched, t.version, t.first, proof.pos, n, u.fetched[k].id);
    } else {
      assert u.fetched[..k] == u.fetched;
    }
  }

  lemma AnswersAgree(index: seq<byte>, proof: SearchProof, request: Option<nat>, n: nat, t: Trace, u: Trace)
    requires IsKey(index) && Ran(index, proof, request, n, t) && Ran(index, proof, request, n, u)
    requires t.fetched == u.fetched
    ensures t.answer == u.answer && (t.answer.Found? ==> t == u)
  {
    hide StepLeaf, StepAt, Asks, Followed, Log2, Established, FrontierPhase, Monotonic;
    var f := t.fetched;
    if t.answer.StepFailed? {
      var id: nat :| Asks(request, f, proof.pos, n, id);
      AsksOrEnds(request, f, u.version, u.first, proof.pos, n, id);
    } else if u.answer.StepFailed? {
      var id: nat :| Asks(request, f, proof.pos, n, id);
      AsksOrEnds(request, f, t.version, t.first, proof.pos, n, id);
    } else {
      EndsMonotonic(request, f, t.version, t.first, proof.pos, n);
      EndsMonotonic(request, f, u.version, u.first, proof.pos, n);
      if !t.answer.NotMonotonic? && !u.answer.NotMonotonic? {
        EndsOnce(request, f, t.version, t.first, u.version, u.first, proof.pos, n);
      }
    }
  }

  lemma EndsMonotonic(request: Option<nat>, fetched: seq<VersionedId>, version: nat, first: nat, pos: nat, n: nat)
    requires pos < n
    ensures Ends(request, fetched, version, first, pos, n) ==> Monotonic(fetched)
  {
  }

  /** So the evidence for a response is unique. */
  lemma HoldsOnce(index: seq<byte>, proof: SearchProof, request: Option<nat>, n: nat, a: Evidence, b: Evidence)
    requires IsKey(index) && ProofHolds(index, proof, request, n, a) && ProofHolds(index, proof, request, n, b)
    ensures a == b
  {
    hide Ran, EvaluateBatch, SortedPairs, LeavesOf;
    RanOnce(index, proof, request, n, a.trace, b.trace);
    RanFacts(index, proof, request, n, a.trace);
    LeavesOnce(index, proof, a.trace.fetched, a.leaves, b.leaves);
    SortedPairsUnique(a.leaves, a.ids, a.values, b.ids, b.values);
  }

  lemma RanFacts(index: seq<byte>, proof: SearchProof, request: Option<nat>, n: nat, t: Trace)
    requires IsKey(index) && Ran(index, proof, request, n, t)
    ensures |t.fetched| <= |proof.steps| && DistinctIds(t.fetched)
    ensures forall k | 0 <= k < |t.fetched| :: proof.pos <= t.fetched[k].id < n
    ensures forall k | 0 <= k < |t.fetched| :: StepLeaf(index, proof.pos, proof.steps[k]).Some?
    ensures t.answer.Found? ==> t.answer.index < |t.fetched| && t.answer.id == t.first
    ensures t.answer.Found? ==> t.fetched[t.answer.index] == VersionedId(t.first, t.version)
  {
    hide StepLeaf, Established;
    forall k | 0 <= k < |t.fetched|
      ensures proof.pos <= t.fetched[k].id < n && StepLeaf(index, proof.pos, proof.steps[k]).Some?
    {
      assert StepAt(index, proof, n, t.fetched[k], k);
    }
  }

  lemma PairsBelow(index: seq<byte>, proof: SearchProof, n: nat, fetched: seq<VersionedId>,
                   leaves: map<nat, Hash>, ids: seq<nat>, values: seq<Hash>)
    requires IsKey(index) && |fetched| <= |proof.steps| && forall k | 0 <= k < |fetched| :: fetched[k].id < n
    requires LeavesOf(index, proof, fetched, leaves) && SortedPairs(leaves, ids, values)
    ensures forall i | 0 <= i < |ids| :: ids[i] < n
  {
    hide StepLeaf;
    forall i | 0 <= i < |ids|
      ensures ids[i] < n
    {
      assert FetchedId(fetched, ids[i]);
    }
  }

  /** Checking the response gets to a commitment that cannot be computed. */
  ghost predicate CommitPanics(c: Client, req: SearchRequest, res: SearchResponse, e: Evidence)
    requires IsKey(c.indexOf(req.searchKey))
  {
    && InRange(res)
    && ProofHolds(c.indexOf(req.searchKey), res.search.value, req.version, res.treeHead.treeHead.value.treeSize, e)
    && Openable(res) && !CommitReturns(req.searchKey, res.value.value)
  }

  /** Verify a search response up to and including its tree head.  It is accepted exactly when some
  evidence supports it, and there is no outcome exactly when a commitment cannot be computed. */
  method VerifySearchProof(c: Client, req: SearchRequest, res: SearchResponse)
    returns (r: Option<VerifyResult<VerifiedSearch>>, ghost e: Evidence)
    requires IsKey(c.indexOf(req.searchKey))
    ensures r.Some? && r.value.Ok? ==> SearchAccepted(c, req, res, e) && Describes(r.value.value, c, req, res, e)
    ensures r == None || r.value.Err? ==> forall b :: !SearchAccepted(c, req, res, b)
    ensures r == None <==> exists b :: CommitPanics(c, req, res, b)
  {
    hide Ran, ProofHolds, HeadAccepted, StepsOf, Marshal;
    e := Evidence(Trace(StepFailed, [], 0, 0), map[], [], [], Opaque(0));
    if res.vrfProof != [] {
      return Some(Err(BadData)), e;
    }
    var index := c.indexOf(req.searchKey);
    if res.treeHead.treeHead == None || res.search == None {
      return Some(Err(RequiredFieldMissing)), e;
    }
    var n: u64, proof := res.treeHead.treeHead.value.treeSize, res.search.value;
    if n == 0 || n > MAX_TREE_SIZE || proof.pos >= n {
      return Some(Err(VerificationFailed)), e;
    }
    var found, root, steps;
    found, root, steps, e := EvaluateSearch(index, proof, req.version, n);
    if found.Err? {
      return Some(Err(found.error)), e;
    }
    HoldsFacts(index, proof, req.version, n, e);
    forall b | SearchAccepted(c, req, res, b)
      ensures b == e
    {
      HoldsOnce(index, proof, req.version, n, e, b);
    }
    var (at, id) := found.value;
    if res.value == None {
      return Some(Err(RequiredFieldMissing)), e;
    }
    if |res.value.value| >= VALUE_LIMIT {
      return Some(Err(BadData)), e;
    }
    if |res.opening| != OPENING_LENGTH {
      return Some(Err(VerificationFailed)), e;
    }
    if !CommitReturns(req.searchKey, res.value.value) {
      assert CommitPanics(c, req, res, e);
      return None, e;
    }
    if proof.steps[at].commitment != Some(Commitment(res.opening, req.searchKey, Marshal(res.value.value))) {
      return Some(Err(VerificationFailed)), e;
    }
    var head := VerifyFullTreeHead(c.config, res.treeHead, root, c.last, c.distinguished, c.now, c.check);
    if head.Err? {
      return Some(Err(head.error)), e;
    }
    var size: u64 := if req.searchKey == DISTINGUISHED then id + 1 else n;
    return Some(Ok(VerifiedSearch(head.value, index, proof.pos, id, proof.steps[at].prefix.value.counter, size, steps))), e;
  }

  /** The limits themselves: 2^62 entries, keys below 2^16 bytes, values below 2^32 bytes with their length
  in front, openings of 16 bytes. */
  lemma LimitsAre(searchKey: seq<byte>, value: seq<byte>, res: SearchResponse)
    ensures MAX_TREE_SIZE == 4_611_686_018_427_387_904
    ensures CommitReturns(searchKey, value) <==> |searchKey| <= 65_535 && |value| <= 4_294_967_291
    ensures Openable(res) <==> res.value.Some? && |res.value.value| <= 4_294_967_295 && |res.opening| == 16
  {
  }

  /** The limits of an accepted response: no VRF proof, a tree of one to 2^62 entries that holds the key's
  first position, an opening of 16 bytes, and key and value short enough for the commitment. */
  lemma AcceptedLimits(c: Client, req: SearchRequest, res: SearchResponse, e: Evidence)
    requires IsKey(c.indexOf(req.searchKey)) && SearchAccepted(c, req, res, e)
    ensures res.vrfProof == [] && res.treeHead.treeHead.Some? && res.search.Some? && res.value.Some?
    ensures 1 <= res.treeHead.treeHead.value.treeSize <= 4_611_686_018_427_387_904
    ensures res.search.value.pos < res.treeHead.treeHead.value.treeSize
    ensures |res.opening| == 16 && |req.searchKey| < 65_536 && |res.value.value| + 4 < 4_294_967_296
  {
    hide ProofHolds, HeadAccepted, Marshal;
    HoldsFacts(c.indexOf(req.searchKey), res.search.value, req.version, res.treeHead.treeHead.value.treeSize, e);
  }

  /** The one search key treated specially. */
  lemma DistinguishedIs()
    ensures |DISTINGUISHED| == |"distinguished"|
    ensures forall i | 0 <= i < |DISTINGUISHED| :: DISTINGUISHED[i] == "distinguished"[i] as int
  {
  }

  lemma HoldsFacts(index: seq<byte>, proof: SearchProof, request: Option<nat>, n: nat, e: Evidence)
    requires IsKey(index) && ProofHolds(index, proof, request, n, e)
    ensures e.trace.answer.Found? && e.trace.answer.index < |proof.steps| == |e.trace.fetched|
    ensures proof.pos <= e.trace.first < n
    ensures var step := proof.steps[e.trace.answer.index]; step.prefix.Some? && step.prefix.value.counter == e.trace.version
  {
    hide EvaluateBatch, SortedPairs, StepLeaf, LeavesOf, Established;
    RanFacts(index, proof, request, n, e.trace);
    assert StepAt(index, proof, n, e.trace.fetched[e.trace.answer.index], e.trace.answer.index);
    StepBinds(index, proof.pos, proof.steps[e.trace.answer.index]);
  }

  // ---------------------------------------------------------------------------------------------
  // What acceptance means.

  /** Every counter fetched is the one the log records at that position. */
  lemma EvidenceBinds(index: seq<byte>, proof: SearchProof, request: Option<nat>, e: Evidence, log: seq<Hash>, k: nat)
    requires IsKey(index) && log != [] && ProofHolds(index, proof, request, |log|, e) && e.root == RootOf(log)
    requires k < |e.trace.fetched|
    ensures var id := e.trace.fetched[k].id;
            && proof.pos <= id < |log| && log[id].LogLeaf? && Some(log[id].commitment) == proof.steps[k].commitment
            && Prefix.Stored(log[id].prefixRoot, index) == Some((e.trace.fetched[k].version, proof.pos))
            && CounterAt(log[id], index, proof.pos) == Some(e.trace.fetched[k].version)
  {
    hide EvaluateBatch, RootOf, Prefix.Stored, CounterAt, StepLeaf, SortedPairs, Established;
    var entry := e.trace.fetched[k];
    assert StepAt(index, proof, |log|, entry, k);
    IncludedLeaf(e.leaves, e.ids, e.values, HashesOf(proof.inclusion), log, entry.id);
    StepBinds(index, proof.pos, proof.steps[k]);
  }

  /** Against any log with the computed root, honest or not: the position found records the version
  and the opened commitment; it is the key's first position or its predecessor records a strictly
  smaller version; and the version is the requested one, or the one at the end of the log. */
  lemma SearchIsSharp(index: seq<byte>, proof: SearchProof, request: Option<nat>, e: Evidence, log: seq<Hash>)
    requires IsKey(index) && log != [] && ProofHolds(index, proof, request, |log|, e) && e.root == RootOf(log)
    ensures var first, version, at := e.trace.first, e.trace.version, e.trace.answer.index;
            && at < |proof.steps| && proof.pos <= first < |log|
            && CounterAt(log[first], index, proof.pos) == Some(version)
            && log[first].LogLeaf? && Some(log[first].commitment) == proof.steps[at].commitment
            && (first == proof.pos
                || var before := CounterAt(log[first - 1], index, proof.pos); before.Some? && before.value < version)
            && match request
               case Some(v) => version == v
               case None => CounterAt(log[|log| - 1], index, proof.pos) == Some(version)
  {
    hide EvaluateBatch, RootOf, Prefix.Stored, CounterAt, StepLeaf, SortedPairs, LeavesOf, StepAt, Monotonic;
    var fetched, first, version := e.trace.fetched, e.trace.first, e.trace.version;
    EvidenceBinds(index, proof, request, e, log, e.trace.answer.index);
    if first != proof.pos {
      var k :| 0 <= k < |fetched| && fetched[k].id == first - 1 && fetched[k].version < version;
      EvidenceBinds(index, proof, request, e, log, k);
    }
    if request == None {
      var k :| 0 <= k < |fetched| && fetched[k] == VersionedId(|log| - 1, version);
      EvidenceBinds(index, proof, request, e, log, k);
    }
  }

  /** In this log the key first appears at position start and has counter c(i) at i from then on,
  never falling. */
  ghost predicate KeyHistory(log: seq<Hash>, index: seq<byte>, start: nat, c: nat -> nat)
    requires IsKey(index)
  {
    && NonDecreasing(c, start, |log|)
    && forall i | 0 <= i < |log| :: RecordAt(log[i], index, if i < start then None else Some((c(i), start)))
  }

  ghost predicate RecordAt(leaf: Hash, index: seq<byte>, record: Option<(nat, nat)>)
    requires IsKey(index)
  {
    leaf.LogLeaf? && Prefix.Stored(leaf.prefixRoot, index) == record
  }

  /** End to end: the commitment an accepted search opens is the one stored at the leftmost position
  of the whole log that carries the requested version, or the newest version if none was requested. */
  lemma SearchIsSound(index: seq<byte>, proof: SearchProof, request: Option<nat>, e: Evidence, log: seq<Hash>,
                      start: nat, c: nat -> nat)
    requires IsKey(index) && log != [] && ProofHolds(index, proof, request, |log|, e) && e.root == RootOf(log)
    requires KeyHistory(log, index, start, c)
    ensures var first, version, at := e.trace.first, e.trace.version, e.trace.answer.index;
            && proof.pos == start <= first < |log| && at < |proof.steps|
            && version == (if request.Some? then request.value else c(|log| - 1))
            && c(first) == version && (forall i | start <= i < first :: c(i) < version)
            && log[first].LogLeaf? && Some(log[first].commitment) == proof.steps[at].commitment
  {
    hide EvaluateBatch, RootOf, Prefix.Stored, CounterAt, StepLeaf, SortedPairs, LeavesOf, StepAt, NonDecreasing, Established;
    var fetched, at := e.trace.fetched, e.trace.answer.index;
    forall k | 0 <= k < |fetched|
      ensures proof.pos == start && start <= fetched[k].id < |log| && fetched[k].version == c(fetched[k].id)
    {
      EvidenceBinds(index, proof, request, e, log, k);
      var id := fetched[k].id;
      assert RecordAt(log[id], index, if id < start then None else Some((c(id), start)));
    }
    EvidenceBinds(index, proof, request, e, log, at);
    FirstIsLeftmost(fetched, request, e.trace.version, e.trace.first, start, |log|, c);
  }

  /** Every step shows the log's own entry at the position it was consumed for. */
  ghost predicate StepsAreHonest(index: seq<byte>, proof: SearchProof, fetched: seq<VersionedId>, log: seq<Hash>)
    requires IsKey(index) && |fetched| <= |proof.steps|
  {
    forall k | 0 <= k < |fetched| :: fetched[k].id < |log| && StepLeaf(index, proof.pos, proof.steps[k]) == Some(log[fetched[k].id])
  }

  lemma HonestCounters(index: seq<byte>, proof: SearchProof, fetched: seq<VersionedId>, log: seq<Hash>, c: nat -> nat)
    requires IsKey(index) && |fetched| <= |proof.steps| && StepsAreHonest(index, proof, fetched, log)
    requires KeyHistory(log, index, proof.pos, c)
    requires forall k | 0 <= k < |fetched| :: StepAt(index, proof, |log|, fetched[k], k)
    ensures Agrees(fetched, c)
  {
    hide Prefix.Stored, CounterAt, StepLeaf, NonDecreasing;
    forall k | 0 <= k < |fetched|
      ensures fetched[k].version == c(fetched[k].id)
    {
      assert StepAt(index, proof, |log|, fetched[k], k);
      StepBinds(index, proof.pos, proof.steps[k]);
      assert RecordAt(log[fetched[k].id], index, Some((c(fetched[k].id), proof.pos)));
    }
  }

  /** Over counters that never fall the search for a version that is there finds it. */
  lemma HonestSearchFinds(fetched: seq<VersionedId>, request: Option<nat>, version: nat, first: nat, pos: nat, n: nat, c: nat -> nat)
    requires pos < n && Ends(request, fetched, version, first, pos, n) && NonDecreasing(c, pos, n) && Agrees(fetched, c)
    requires exists y | pos <= y < n :: c(y) == version
    ensures Has(fetched, first, version)
  {
    FirstIsLeftmost(fetched, request, version, first, pos, n, c);
    var y :| pos <= y < n && c(y) == version;
    assert c(first) <= c(y);
    var k :| 0 <= k < |fetched| && fetched[k].id == first && fetched[k].version >= version;
    assert fetched[k] == VersionedId(first, version);
  }

  /** Completeness: the honest answer to a search for a version the log holds, or for the newest one,
  is accepted up to its opening and head, with the root of the log. */
  lemma SearchIsComplete(index: seq<byte>, proof: SearchProof, request: Option<nat>, log: seq<Hash>, c: nat -> nat, e: Evidence)
    requires IsKey(index) && Ran(index, proof, request, |log|, e.trace) && !e.trace.answer.StepFailed?
    requires |e.trace.fetched| == |proof.steps| && StepsAreHonest(index, proof, e.trace.fetched, log)
    requires KeyHistory(log, index, proof.pos, c)
    requires request.Some? ==> exists y | proof.pos <= y < |log| :: c(y) == request.value
    requires LeavesOf(index, proof, e.trace.fetched, e.leaves) && SortedPairs(e.leaves, e.ids, e.values)
    requires AllHashes(proof.inclusion) && log != [] && AllBelow(e.ids, |log|)
    requires AllNodes(Copath(e.ids, |log|), |log|)
    requires HashesOf(proof.inclusion) == HonestValues(Copath(e.ids, |log|), log) && e.root == RootOf(log)
    ensures ProofHolds(index, proof, request, |log|, e)
  {
    hide Ends, Complains, Asks, Followed, Has, Log2, DistinctIds, StepLeaf, EvaluateBatch, RootOf, Copath, HonestValues,
         SortedPairs, LeavesOf, Monotonic, NonDecreasing, FrontierPhase;
    var t := e.trace;
    HonestCounters(index, proof, t.fetched, log, c);
    TraceFindsVersion(index, proof, request, log, c, t);
    HonestBatchEvaluates(index, proof, t.fetched, log, e);
  }

  ghost predicate AllBelow(ids: seq<nat>, n: nat) {
    forall i | 0 <= i < |ids| :: ids[i] < n
  }

  lemma TraceFindsVersion(index: seq<byte>, proof: SearchProof, request: Option<nat>, log: seq<Hash>, c: nat -> nat, t: Trace)
    requires IsKey(index) && Ran(index, proof, request, |log|, t) && !t.answer.StepFailed?
    requires NonDecreasing(c, proof.pos, |log|) && Agrees(t.fetched, c)
    requires request.Some? ==> exists y | proof.pos <= y < |log| :: c(y) == request.value
    ensures t.answer.Found?
  {
    hide Followed, Log2, DistinctIds, StepLeaf, FrontierPhase, Bracketed, Monotonic;
    RanFacts(index, proof, request, |log|, t);
    HonestIsMonotonic(t.fetched, proof.pos, |log|, c);
    if t.answer.NotFound? {
      FirstIsLeftmost(t.fetched, request, t.version, t.first, proof.pos, |log|, c);
      HonestSearchFinds(t.fetched, request, t.version, t.first, proof.pos, |log|, c);
    }
  }

  lemma HonestBatchEvaluates(index: seq<byte>, proof: SearchProof, fetched: seq<VersionedId>, log: seq<Hash>, e: Evidence)
    requires IsKey(index) && 1 <= |fetched| <= |proof.steps| && StepsAreHonest(index, proof, fetched, log)
    requires LeavesOf(index, proof, fetched, e.leaves) && SortedPairs(e.leaves, e.ids, e.values)
    requires AllHashes(proof.inclusion) && log != [] && AllBelow(e.ids, |log|)
    requires AllNodes(Copath(e.ids, |log|), |log|)
    requires HashesOf(proof.inclusion) == HonestValues(Copath(e.ids, |log|), log)
    ensures EvaluateBatch(e.ids, |log|, e.values, HashesOf(proof.inclusion)) == Ok(RootOf(log))
  {
    hide EvaluateBatch, RootOf, Copath, HonestValues, StepLeaf, AllNodes;
    assert fetched[0].id in e.leaves;
    forall i | 0 <= i < |e.ids|
      ensures e.values[i] == log[e.ids[i]]
    {
      assert FetchedId(fetched, e.ids[i]);
      var k :| 0 <= k < |fetched| && fetched[k].id == e.ids[i];
    }
    BatchIsExact(e.ids, |log|, e.values, HashesOf(proof.inclusion), log);
    assert e.values == Selected(e.ids, log);
  }

  /** The log entry at p commits to this response's value for this key. */
  ghost predicate OpensAt(log: seq<Hash>, p: nat, searchKey: seq<byte>, res: SearchResponse) {
    && p < |log| && log[p].LogLeaf? && res.value.Some? && |res.value.value| < VALUE_LIMIT
    && log[p].commitment == Commitment(res.opening, searchKey, Marshal(res.value.value))
  }

  /** An accepted response opens the log entry it found. */
  lemma AcceptedOpensLog(c: Client, req: SearchRequest, res: SearchResponse, e: Evidence, log: seq<Hash>)
    requires IsKey(c.indexOf(req.searchKey)) && SearchAccepted(c, req, res, e)
    requires res.treeHead.treeHead.value.treeSize == |log| && e.root == RootOf(log)
    ensures OpensAt(log, e.trace.first, req.searchKey, res)
  {
    hide ProofHolds, HeadAccepted, RootOf, Marshal, CounterAt;
    SearchIsSharp(c.indexOf(req.searchKey), res.search.value, req.version, e, log);
  }

  /** One log position opens to one key and one value only. */
  lemma ValueIsBound(log: seq<Hash>, p: nat, k: seq<byte>, res: SearchResponse, k': seq<byte>, res': SearchResponse)
    requires OpensAt(log, p, k, res) && OpensAt(log, p, k', res')
    ensures k == k' && res.value == res'.value && res.opening == res'.opening
  {
    hide Marshal;
    MarshalIsInjective(res.value.value, res'.value.value);
  }
}
