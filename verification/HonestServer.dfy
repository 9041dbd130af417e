/** An honest server can always answer: what it builds from its log is accepted in full. */
module HonestServer {
  import opened Wrappers
  import opened Bits
  import opened Paths
  import opened Hashes
  import opened Merkle
  import opened LogTree
  import opened Sorting
  import opened BatchCopath
  import opened ConsistencyProof
  import opened BatchProof
  import opened Prefix
  import opened Heads
  import opened Monitor
  import opened Search
  import opened HonestSearch
  import opened MonitorProofs

  // ---------------------------------------------------------------------------------------------
  // Tree heads.

  /** The client stored an earlier state of this log, or the present one. */
  ghost predicate Earlier(baseline: Option<LastTreeHead>, head: TreeHead, log: seq<Hash>) {
    baseline.Some? ==>
      var b := baseline.value;
      && Commits(b.root, b.head.treeSize, log) && b.head.timestamp <= head.timestamp
      && (b.head.treeSize == |log| ==> b.head.timestamp == head.timestamp)
  }

  /** The proof that the log extends what the client stored. */
  function ConsistencyFor(baseline: Option<LastTreeHead>, log: seq<Hash>): seq<Hash> {
    if baseline.Some? && 1 <= baseline.value.head.treeSize < |log|
    then HonestProof(baseline.value.head.treeSize, |log|, log) else []
  }

  lemma ConsistencyHolds(baseline: Option<LastTreeHead>, head: TreeHead, log: seq<Hash>)
    requires 1 <= |log| == head.treeSize && Earlier(baseline, head, log)
    ensures ConsistentWith(head, RootOf(log), ConsistencyFor(baseline, log), baseline)
  {
    hide VerifyConsistency, RootOf, HonestProof;
    if baseline.Some? {
      var b := baseline.value;
      assert log[..|log|] == log;
      if b.head.treeSize < |log| {
        ConsistencyIsExact(b.head.treeSize, |log|, ConsistencyFor(baseline, log), b.root, log);
      }
    }
  }

  /** The head with its proofs for this client. */
  function HeadFor(c: Client, log: seq<Hash>, head: TreeHead, auditors: seq<FullAuditorTreeHead>): FullTreeHead {
    FullTreeHead(Some(head), Wrapped(ConsistencyFor(c.last, log)), Wrapped(ConsistencyFor(c.distinguished, log)), auditors)
  }

  /** The head is signed and recent for this client, and so is every auditor's. */
  ghost predicate Vouched(c: Client, log: seq<Hash>, head: TreeHead, auditors: seq<FullAuditorTreeHead>)
    requires log != []
  {
    && SignaturesOk(c.config, head, RootOf(log), c.check)
    && TimestampOk(head.timestamp, MILLIS_PER_DAY, MILLIS_PER_DAY, c.now)
    && AuditorsOk(c.config, HeadFor(c, log, head, auditors), head, RootOf(log), c.now, c.check)
  }

  /** The head stands for this log, and the client has stored nothing that contradicts it. */
  ghost predicate Presents(c: Client, log: seq<Hash>, head: TreeHead, auditors: seq<FullAuditorTreeHead>) {
    && 1 <= |log| == head.treeSize <= MAX_TREE_SIZE
    && Earlier(c.last, head, log) && Earlier(c.distinguished, head, log) && Vouched(c, log, head, auditors)
  }

  lemma HeadIsAccepted(c: Client, log: seq<Hash>, head: TreeHead, auditors: seq<FullAuditorTreeHead>)
    requires Presents(c, log, head, auditors)
    ensures HeadAccepted(c.config, HeadFor(c, log, head, auditors), RootOf(log), c.last, c.distinguished, c.now, c.check)
  {
    hide ConsistentWith, SignaturesOk, TimestampOk, AuditorsOk, Earlier, RootOf, ConsistencyFor;
    ConsistencyHolds(c.last, head, log);
    ConsistencyHolds(c.distinguished, head, log);
  }

  // ---------------------------------------------------------------------------------------------
  // Searches.

  datatype Record = Record(opening: seq<byte>, value: seq<byte>)

  /** Wherever the key gets a new version, the entry commits to the value on record. */
  ghost predicate Kept(log: seq<Hash>, searchKey: seq<byte>, start: nat, cnt: nat -> nat, records: nat -> Record) {
    forall p: nat | p < |log| && NewAt(start, cnt, p) :: KeptAt(log[p], searchKey, records(p))
  }

  ghost predicate NewAt(start: nat, cnt: nat -> nat, p: nat) {
    p == start || (p > start && cnt(p - 1) < cnt(p))
  }

  ghost predicate KeptAt(leaf: Hash, searchKey: seq<byte>, record: Record) {
    && |record.opening| == OPENING_LENGTH && CommitReturns(searchKey, record.value)
    && leaf.LogLeaf? && leaf.commitment == Commitment(record.opening, searchKey, Marshal(record.value))
  }

  lemma KeptWhereFound(log: seq<Hash>, searchKey: seq<byte>, start: nat, cnt: nat -> nat, records: nat -> Record, p: nat)
    requires Kept(log, searchKey, start, cnt, records) && start <= p < |log| && forall i | start <= i < p :: cnt(i) < cnt(p)
    ensures KeptAt(log[p], searchKey, records(p))
  {
    hide KeptAt;
    assert NewAt(start, cnt, p);
  }

  /** Answer a search from the log: the client accepts, whatever earlier state of the log it stored. */
  method AnswerSearchRequest(c: Client, req: SearchRequest, log: seq<Hash>, start: u64, cnt: nat -> nat,
                             records: nat -> Record, head: TreeHead, auditors: seq<FullAuditorTreeHead>)
    returns (res: SearchResponse, ghost e: Evidence)
    requires IsKey(c.indexOf(req.searchKey)) && Presents(c, log, head, auditors)
    requires start < |log| && KeyHistory(log, c.indexOf(req.searchKey), start, cnt)
    requires req.version.Some? ==> exists y | start <= y < |log| :: cnt(y) == req.version.value
    requires Kept(log, req.searchKey, start, cnt, records)
    ensures SearchAccepted(c, req, res, e) && e.root == RootOf(log) && res.treeHead.treeHead == Some(head)
    ensures res.value == Some(records(e.trace.first).value)
  {
    hide ProofHolds, HeadAccepted, RootOf, KeyHistory, Vouched, Earlier, Marshal, ConsistencyFor;
    var index := c.indexOf(req.searchKey);
    var proof, found;
    proof, found, e := AnswerSearch(index, req.version, log, start, cnt);
    SearchIsSound(index, proof, req.version, e, log, start, cnt);
    HoldsFound(index, proof, req.version, |log|, e);
    KeptWhereFound(log, req.searchKey, start, cnt, records, found);
    HeadIsAccepted(c, log, head, auditors);
    res := SearchResponse([], Some(proof), records(found).opening, Some(records(found).value), HeadFor(c, log, head, auditors));
  }

  // ---------------------------------------------------------------------------------------------
  // Monitoring.

  /** From its first position on the log records the key. */
  ghost predicate Recorded(log: seq<Hash>, index: Key, start: nat) {
    forall p | start <= p < |log| :: RecordedAt(log[p], index, start)
  }

  ghost predicate RecordedAt(leaf: Hash, index: Key, start: nat) {
    exists counter: nat :: RecordAt(leaf, index, Some((counter, start)))
  }

  /** The step shows the log's entry. */
  ghost predicate Showing(d: MonitoringData, step: ProofStep, leaf: Hash) {
    StepLeaf(d.index, d.pos, step) == Some(leaf)
  }

  lemma RecordedShows(d: MonitoringData, leaf: Hash)
    requires RecordedAt(leaf, d.index, d.pos)
    ensures leaf.LogLeaf? && Prefix.Stored(leaf.prefixRoot, d.index).Some? && Showing(d, StepFrom(leaf, d.index), leaf)
  {
    hide StepLeaf, StepFrom, Prefix.Stored;
    var counter: nat :| RecordAt(leaf, d.index, Some((counter, d.pos)));
    StepFromStandsForLeaf(leaf, d.index, counter, d.pos);
  }

  /** The key can be monitored: the client has data for it and the log records it. */
  ghost predicate Answerable(key: MonitorKey, data: KeyData, log: seq<Hash>) {
    && key.searchKey in data
    && data[key.searchKey].pos <= key.entryPosition < |log|
    && Recorded(log, data[key.searchKey].index, data[key.searchKey].pos)
  }

  ghost predicate ShowsPath(key: MonitorKey, proof: seq<ProofStep>, data: KeyData, log: seq<Hash>) {
    && Answerable(key, data, log)
    && var path := FullPath(key.entryPosition, |log|);
    && |proof| == |path|
    && forall k | 0 <= k < |path| :: path[k] < |log| && Showing(data[key.searchKey], proof[k], log[path[k]])
  }

  /** The steps for one key: one for each position of its path. */
  method AnswerKey(key: MonitorKey, data: KeyData, log: seq<Hash>) returns (proof: seq<ProofStep>)
    requires Answerable(key, data, log)
    ensures ShowsPath(key, proof, data, log)
  {
    hide FullPath, Showing, Prefix.Stored, RecordedAt, StepFrom;
    var d, path := data[key.searchKey], FullPath(key.entryPosition, |log|);
    FullPathIs(key.entryPosition, |log|);
    proof := [];
    for k := 0 to |path|
      invariant |proof| == k && forall j | 0 <= j < k :: Showing(d, proof[j], log[path[j]])
    {
      assert RecordedAt(log[path[k]], d.index, d.pos);
      RecordedShows(d, log[path[k]]);
      proof := proof + [StepFrom(log[path[k]], d.index)];
    }
  }

  /** The log's own entries at these positions. */
  ghost predicate FromLog(leaves: map<nat, Hash>, log: seq<Hash>) {
    forall p | p in leaves :: p < |log| && leaves[p] == log[p]
  }

  lemma KeyIsGathered(key: MonitorKey, proof: seq<ProofStep>, data: KeyData, log: seq<Hash>, before: map<nat, Hash>,
                      leaves: map<nat, Hash>, entries: map<nat, ProofStep>)
    requires ShowsPath(key, proof, data, log) && FromLog(before, log)
    requires var path := FullPath(key.entryPosition, |log|);
             && leaves == before + (map p | p in path && p < |log| :: log[p])
             && EntriesFor(path, proof, entries)
    ensures KeyGathered(key, proof, data, |log|, leaves, entries) && FromLog(leaves, log)
    ensures Grows(before, FullPath(key.entryPosition, |log|), leaves)
  {
    hide FullPath, StepLeaf, EntriesFor, PathReturns, Recorded;
    var d, path := data[key.searchKey], FullPath(key.entryPosition, |log|);
    PathReturnsInside(key.entryPosition, d.pos, |log|);
    forall k | 0 <= k < |path|
      ensures StepHolds(d, path[k], proof[k], leaves)
    {
      assert path[k] in path && Showing(d, proof[k], log[path[k]]);
    }
  }

  /** The steps of a path by position. */
  method ByPosition(path: seq<nat>, proof: seq<ProofStep>) returns (entries: map<nat, ProofStep>)
    requires |path| == |proof| && forall i, j | 0 <= i < j < |path| :: path[i] < path[j]
    ensures EntriesFor(path, proof, entries)
  {
    entries := map[];
    for k := 0 to |path|
      invariant forall j | 0 <= j < k :: path[j] in entries && entries[path[j]] == proof[j]
      invariant forall p | p in entries :: p in path
    {
      entries := entries[path[k] := proof[k]];
    }
  }

  /** What the client gathers from honest proofs: entries of the log. */
  method GatherAll(req: MonitorRequest, proofs: seq<seq<ProofStep>>, data: KeyData, log: seq<Hash>)
    returns (leaves: map<nat, Hash>, entries: seq<map<nat, ProofStep>>)
    requires |req.keys| == |proofs| && forall i | 0 <= i < |req.keys| :: ShowsPath(req.keys[i], proofs[i], data, log)
    ensures Gathered(req, proofs, data, |log|, leaves, entries, |req.keys|) && FromLog(leaves, log)
  {
    hide FullPath, Gathered, KeyGathered, Grows, FromLog, Answerable, EntriesFor, Showing;
    leaves, entries := map[], [];
    GatheredNone(req, proofs, data, |log|);
    NothingFromLog(log);
    for i := 0 to |req.keys|
      invariant Gathered(req, proofs, data, |log|, leaves, entries, i) && FromLog(leaves, log)
    {
      var key, proof := req.keys[i], proofs[i];
      assert ShowsPath(key, proof, data, log);
      AnswerableBelow(key, data, log);
      var path := FullPath(key.entryPosition, |log|);
      FullPathIs(key.entryPosition, |log|);
      var steps := ByPosition(path, proof);
      GatheredLength(req, proofs, data, |log|, leaves, entries, i);
      ghost var before, sofar := leaves, entries;
      leaves := leaves + (map p | p in path && p < |log| :: log[p]);
      entries := entries + [steps];
      assert entries[..i] == sofar;
      KeyIsGathered(key, proof, data, log, before, leaves, steps);
      GatherOne(req, proofs, data, |log|, before, leaves, entries, i);
    }
  }

  lemma AnswerableBelow(key: MonitorKey, data: KeyData, log: seq<Hash>)
    requires Answerable(key, data, log)
    ensures key.entryPosition < |log|
  {
  }

  lemma NothingFromLog(log: seq<Hash>)
    ensures FromLog(map[], log)
  {
  }

  /** The hashes that complete these entries to the root of the log. */
  method IncludeAll(leaves: map<nat, Hash>, entries: seq<map<nat, ProofStep>>, log: seq<Hash>)
    returns (inclusion: seq<Option<Hash>>, ghost e: MonitorEvidence)
    requires 1 <= |log| <= MAX_TREE_SIZE && FromLog(leaves, log)
    ensures AllHashes(inclusion) && RootFor(e, |log|, HashesOf(inclusion))
    ensures e.leaves == leaves && e.entries == entries && e.root == RootOf(log)
  {
    hide RootOf, EvaluateBatch, SortedPairs, Copath, HonestValues;
    var n: u64 := |log|;
    if leaves == map[] {
      inclusion := Wrapped([RootOf(log)]);
      e := MonitorEvidence(leaves, entries, [], [], RootOf(log));
      return;
    }
    var ids, values := IntoSortedPairs(leaves);
    PairsFromLog(leaves, ids, values, log);
    var copath := ComputeCopath(ids, n);
    CopathAreNodes(ids, n);
    inclusion := Wrapped(HonestValues(copath, log));
    e := MonitorEvidence(leaves, entries, ids, values, RootOf(log));
    BatchOfLog(ids, values, HashesOf(inclusion), log);
  }

  lemma PairsFromLog(leaves: map<nat, Hash>, ids: seq<nat>, values: seq<Hash>, log: seq<Hash>)
    requires SortedPairs(leaves, ids, values) && FromLog(leaves, log) && leaves != map[]
    ensures ids != [] && Distinct(ids) && Increasing(ids) && |ids| == |values|
    ensures forall i | 0 <= i < |ids| :: ids[i] < |log| && values[i] == log[ids[i]]
  {
    var p :| p in leaves;
    assert p in ids;
  }

  lemma BatchOfLog(ids: seq<nat>, values: seq<Hash>, proof: seq<Hash>, log: seq<Hash>)
    requires log != [] && ids != [] && Increasing(ids) && |ids| == |values|
    requires forall i | 0 <= i < |ids| :: ids[i] < |log| && values[i] == log[ids[i]]
    requires AllNodes(Copath(ids, |log|), |log|) && proof == HonestValues(Copath(ids, |log|), log)
    ensures EvaluateBatch(ids, |log|, values, proof) == Ok(RootOf(log))
  {
    hide EvaluateBatch, RootOf, Copath, HonestValues, AllNodes;
    BatchIsExact(ids, |log|, values, proof, log);
    assert values == Selected(ids, log);
  }

  /** Answer a monitoring request from the log: the client accepts. */
  method AnswerMonitorRequest(c: Client, req: MonitorRequest, data: KeyData, log: seq<Hash>, head: TreeHead,
                              auditors: seq<FullAuditorTreeHead>)
    returns (res: MonitorResponse, ghost e: MonitorEvidence)
    requires Presents(c, log, head, auditors) && forall i | 0 <= i < |req.keys| :: Answerable(req.keys[i], data, log)
    ensures MonitorAccepted(c, req, res, data, e) && e.root == RootOf(log)
    ensures res.treeHead.Some? && res.treeHead.value.treeHead == Some(head)
  {
    hide Gathered, RootFor, HeadAccepted, RootOf, Vouched, Earlier, Answerable, ShowsPath, ConsistencyFor;
    var proofs: seq<seq<ProofStep>> := [];
    for i := 0 to |req.keys|
      invariant |proofs| == i && forall j | 0 <= j < i :: ShowsPath(req.keys[j], proofs[j], data, log)
    {
      var proof := AnswerKey(req.keys[i], data, log);
      proofs := proofs + [proof];
    }
    var leaves, entries := GatherAll(req, proofs, data, log);
    var inclusion;
    inclusion, e := IncludeAll(leaves, entries, log);
    HeadIsAccepted(c, log, head, auditors);
    res := MonitorResponse(Some(HeadFor(c, log, head, auditors)), proofs, inclusion);
  }
}
