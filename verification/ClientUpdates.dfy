/** The client's two operations whole: verify a response, then update the stored monitoring data.

An operation gives no outcome at all (None) where the source does not return. */
module ClientUpdates {
  import opened Wrappers
  import opened Bits
  import opened Paths
  import opened Hashes
  import opened Prefix
  import opened Heads
  import opened Monitor
  import opened MonitorRuns
  import opened Search
  import opened MonitorProofs

  // ---------------------------------------------------------------------------------------------
  // The update that follows an accepted search.

  /** The data a search starts from: a key not yet monitored is added when monitoring is wanted. */
  function Started(data: Option<MonitoringData>, mode: DeploymentMode, v: VerifiedSearch, monitor: bool): Option<MonitoringData> {
    if data == None && (monitor || mode == ContactMonitoring)
    then Some(MonitoringData(v.index, v.pos, map[v.id := v.version], monitor, [], v.version))
    else data
  }

  /** The event an accepted search is for the monitoring data. */
  function SearchEvent(v: VerifiedSearch, monitor: bool): Event {
    Searched(v.size, v.id, v.version, monitor, v.steps)
  }

  /** The search is about the key the data is for. */
  predicate SameKey(d: MonitoringData, v: VerifiedSearch) {
    d.index == v.index && d.pos == v.pos
  }

  /** Data that is kept takes one step.  It fails exactly when the data is about another key or the step
  cannot be taken, and does not return only when the step does not. */
  method UpdateAfterSearch(mode: DeploymentMode, v: VerifiedSearch, data: Option<MonitoringData>, monitor: bool)
    returns (r: Option<VerifyResult<Option<MonitoringData>>>)
    requires v.pos <= v.id < v.size <= MAX_TREE_SIZE
    ensures var start := Started(data, mode, v, monitor); var e := SearchEvent(v, monitor);
            && (start == None ==> r == Some(Ok(None)))
            && (start.Some? ==>
                  && (r == None ==> SameKey(start.value, v) && !StepReturns(start.value, e))
                  && (r.Some? && r.value.Ok? ==>
                        SameKey(start.value, v) && r.value.value.Some? && Step(start.value, e, r.value.value.value))
                  && (r.Some? && r.value.Ok? ==> StepReturns(start.value, e))
                  && (r.Some? && r.value.Err? ==> !(SameKey(start.value, v) && CanStep(start.value, e))))
  {
    hide Checked, Updated, CanUpdate, SomeHangs;
    var mdw := new MonitoringDataWrapper(data);
    if monitor || mode == ContactMonitoring {
      mdw.StartMonitoring(v.index, v.pos, v.id, v.version, monitor);
    }
    ghost var start := Started(data, mode, v, monitor);
    var checked := mdw.CheckSearchConsistency(v.size, v.index, v.pos, v.id, v.version, monitor);
    if checked.Err? {
      return Some(Err(checked.error));
    }
    if start.Some? { CheckedSame(start.value, v, monitor); }
    var updated := mdw.Update(v.size, v.steps);
    if updated == None {
      return None;
    }
    if updated.value.Err? {
      return Some(Err(updated.value.error));
    }
    return Some(Ok(mdw.inner));
  }

  lemma CheckedSame(data: MonitoringData, v: VerifiedSearch, monitor: bool)
    requires Checked(data, v.size, v.index, v.pos, v.id, v.version, monitor).Ok?
    ensures SameKey(data, v)
    ensures Checked(data, v.size, v.index, v.pos, v.id, v.version, monitor).value.pos == data.pos
  {
  }

  // ---------------------------------------------------------------------------------------------
  // A whole search.

  datatype SearchUpdate = SearchUpdate(head: LastTreeHead, data: Option<MonitoringData>)

  /** The response was accepted with this evidence, and the data took the step it describes. */
  ghost predicate SearchTaken(c: Client, req: SearchRequest, res: SearchResponse, data: Option<MonitoringData>, monitor: bool,
                              e: Evidence, v: VerifiedSearch, update: SearchUpdate)
    requires IsKey(c.indexOf(req.searchKey))
  {
    && SearchAccepted(c, req, res, e) && Describes(v, c, req, res, e) && update.head == v.head
    && var start := Started(data, c.config.mode, v, monitor);
    && (start == None ==> update.data == None)
    && (start.Some? ==>
          SameKey(start.value, v) && update.data.Some? && Step(start.value, SearchEvent(v, monitor), update.data.value))
  }

  lemma DescribedFacts(c: Client, req: SearchRequest, res: SearchResponse, e: Evidence, v: VerifiedSearch)
    requires IsKey(c.indexOf(req.searchKey)) && SearchAccepted(c, req, res, e) && Describes(v, c, req, res, e)
    ensures v.pos <= v.id < v.size <= v.head.head.treeSize <= MAX_TREE_SIZE
    ensures v.index == c.indexOf(req.searchKey)
    ensures req.searchKey != DISTINGUISHED ==> v.size == v.head.head.treeSize
  {
    hide ProofHolds, Opened, HeadAccepted, StepsOf;
    HoldsFacts(v.index, res.search.value, req.version, v.head.head.treeSize, e);
  }

  /** Verify a search response and update the stored data, for every response and all stored data. */
  method VerifySearch(c: Client, req: SearchRequest, res: SearchResponse, data: Option<MonitoringData>, monitor: bool)
    returns (r: Option<VerifyResult<SearchUpdate>>, ghost e: Evidence, ghost v: VerifiedSearch)
    requires IsKey(c.indexOf(req.searchKey))
    ensures r.Some? && r.value.Ok? ==>
              SearchTaken(c, req, res, data, monitor, e, v, r.value.value) && !SearchHangs(c, data, monitor, v)
    ensures r.Some? && r.value.Err? ==>
              || (forall b :: !SearchAccepted(c, req, res, b))
              || (SearchAccepted(c, req, res, e) && Describes(v, c, req, res, e) && Rejects(c, data, monitor, v))
    ensures r == None ==>
              || (exists b :: CommitPanics(c, req, res, b))
              || (SearchAccepted(c, req, res, e) && Describes(v, c, req, res, e) && SearchHangs(c, data, monitor, v))
    ensures (exists b :: CommitPanics(c, req, res, b)) ==> r == None
  {
    hide SearchAccepted, Describes, Step, CanStep, StepReturns, CommitPanics;
    var verified;
    verified, e := VerifySearchProof(c, req, res);
    v := VerifiedSearch(LastTreeHead(TreeHead(0, 0, []), Opaque(0)), c.indexOf(req.searchKey), 0, 0, 0, 0, map[]);
    if verified == None {
      return None, e, v;
    }
    if verified.value.Err? {
      return Some(Err(verified.value.error)), e, v;
    }
    var found := verified.value.value;
    v := found;
    DescribedFacts(c, req, res, e, v);
    var updated := UpdateAfterSearch(c.config.mode, found, data, monitor);
    if updated == None {
      return None, e, v;
    }
    if updated.value.Err? {
      return Some(Err(updated.value.error)), e, v;
    }
    return Some(Ok(SearchUpdate(found.head, updated.value.value))), e, v;
  }

  /** The stored data stands against the accepted search. */
  ghost predicate Rejects(c: Client, data: Option<MonitoringData>, monitor: bool, v: VerifiedSearch) {
    var start := Started(data, c.config.mode, v, monitor);
    start.Some? && !(SameKey(start.value, v) && CanStep(start.value, SearchEvent(v, monitor)))
  }

  /** The update of the stored data does not return. */
  ghost predicate SearchHangs(c: Client, data: Option<MonitoringData>, monitor: bool, v: VerifiedSearch) {
    var start := Started(data, c.config.mode, v, monitor);
    start.Some? && SameKey(start.value, v) && !StepReturns(start.value, SearchEvent(v, monitor))
  }

  // ---------------------------------------------------------------------------------------------
  // The updates that follow an accepted monitoring response.

  /** The tree size to update a key for; the distinguished key uses the size the client asked about. */
  function SizeFor(key: MonitorKey, consistencyLast: Option<u64>, n: u64): Option<u64> {
    if key.searchKey == DISTINGUISHED then consistencyLast else Some(n)
  }

  /** The event for the i-th key. */
  function KeyEvent(req: MonitorRequest, entries: seq<map<nat, ProofStep>>, n: u64, i: nat): Option<Event>
    requires i < |req.keys| == |entries|
  {
    match SizeFor(req.keys[i], req.consistencyLast, n)
    case None => None
    case Some(size) => Some(Monitored(size, entries[i]))
  }

  ghost predicate KeyUpdates(req: MonitorRequest, entries: seq<map<nat, ProofStep>>, data: KeyData, n: u64, i: nat)
    requires i < |req.keys| == |entries| && req.keys[i].searchKey in data
  {
    var e := KeyEvent(req, entries, n, i);
    e.Some? && CanStep(data[req.keys[i].searchKey], e.value) && StepReturns(data[req.keys[i].searchKey], e.value)
  }

  /** Updating the i-th key may not return. */
  ghost predicate KeyHangs(req: MonitorRequest, entries: seq<map<nat, ProofStep>>, data: KeyData, n: u64, i: nat)
    requires i < |req.keys| == |entries| && req.keys[i].searchKey in data
  {
    var e := KeyEvent(req, entries, n, i);
    e.Some? && !StepReturns(data[req.keys[i].searchKey], e.value)
  }

  /** Updating the i-th key may fail. */
  ghost predicate KeyFails(req: MonitorRequest, entries: seq<map<nat, ProofStep>>, data: KeyData, n: u64, i: nat)
    requires i < |req.keys| == |entries| && req.keys[i].searchKey in data
  {
    var e := KeyEvent(req, entries, n, i);
    e == None || !CanStep(data[req.keys[i].searchKey], e.value)
  }

  ghost predicate Known(req: MonitorRequest, data: KeyData) {
    forall i | 0 <= i < |req.keys| :: req.keys[i].searchKey in data
  }

  ghost predicate AllUpdate(req: MonitorRequest, entries: seq<map<nat, ProofStep>>, data: KeyData, n: u64, m: nat)
    requires m <= |req.keys| == |entries| && Known(req, data)
  {
    forall i | 0 <= i < m :: KeyUpdates(req, entries, data, n, i)
  }

  /** The update for this search key came from its last mention before m. */
  ghost predicate UpdatedBy(req: MonitorRequest, entries: seq<map<nat, ProofStep>>, data: KeyData, n: u64, m: nat,
                            s: seq<byte>, after: MonitoringData, i: nat)
    requires m <= |req.keys| == |entries|
  {
    && i < m && req.keys[i].searchKey == s && s in data && KeyEvent(req, entries, n, i).Some?
    && (forall j | i < j < m :: req.keys[j].searchKey != s)
    && Step(data[s], KeyEvent(req, entries, n, i).value, after)
  }

  ghost predicate HasUpdate(req: MonitorRequest, entries: seq<map<nat, ProofStep>>, data: KeyData, n: u64, m: nat,
                            s: seq<byte>, after: MonitoringData)
    requires m <= |req.keys| == |entries|
  {
    exists i: nat :: UpdatedBy(req, entries, data, n, m, s, after, i)
  }

  /** The updates are exactly those of the first m keys. */
  ghost predicate UpdatesFrom(req: MonitorRequest, entries: seq<map<nat, ProofStep>>, data: KeyData, n: u64, m: nat, updates: KeyData)
    requires m <= |req.keys| == |entries|
  {
    && (forall i | 0 <= i < m :: req.keys[i].searchKey in updates)
    && (forall s | s in updates :: HasUpdate(req, entries, data, n, m, s, updates[s]))
  }

  lemma UpdateNext(req: MonitorRequest, entries: seq<map<nat, ProofStep>>, data: KeyData, n: u64, m: nat,
                   updates: KeyData, after: MonitoringData)
    requires m < |req.keys| == |entries| && UpdatesFrom(req, entries, data, n, m, updates)
    requires req.keys[m].searchKey in data && KeyEvent(req, entries, n, m).Some?
    requires Step(data[req.keys[m].searchKey], KeyEvent(req, entries, n, m).value, after)
    ensures UpdatesFrom(req, entries, data, n, m + 1, updates[req.keys[m].searchKey := after])
  {
    hide Step, KeyEvent;
    var updates' := updates[req.keys[m].searchKey := after];
    forall s | s in updates'
      ensures HasUpdate(req, entries, data, n, m + 1, s, updates'[s])
    {
      if s == req.keys[m].searchKey {
        assert UpdatedBy(req, entries, data, n, m + 1, s, after, m);
      } else {
        assert HasUpdate(req, entries, data, n, m, s, updates[s]);
        var i: nat :| UpdatedBy(req, entries, data, n, m, s, updates[s], i);
        assert UpdatedBy(req, entries, data, n, m + 1, s, updates'[s], i);
      }
    }
  }

  /** Some key can be reached that hangs; some key can be reached that fails. */
  ghost predicate HangsAt(req: MonitorRequest, entries: seq<map<nat, ProofStep>>, data: KeyData, n: u64, i: nat)
    requires |req.keys| == |entries| && Known(req, data)
  {
    i < |req.keys| && AllUpdate(req, entries, data, n, i) && KeyHangs(req, entries, data, n, i)
  }

  ghost predicate FailsAt(req: MonitorRequest, entries: seq<map<nat, ProofStep>>, data: KeyData, n: u64, i: nat)
    requires |req.keys| == |entries| && Known(req, data)
  {
    i < |req.keys| && AllUpdate(req, entries, data, n, i) && KeyFails(req, entries, data, n, i)
  }

  method UpdateKeys(req: MonitorRequest, entries: seq<map<nat, ProofStep>>, data: KeyData, n: u64)
    returns (r: Option<VerifyResult<KeyData>>)
    requires |req.keys| == |entries| && Known(req, data) && n <= MAX_TREE_SIZE
    requires req.consistencyLast.Some? ==> req.consistencyLast.value <= MAX_TREE_SIZE
    ensures r.Some? && r.value.Ok? <==> AllUpdate(req, entries, data, n, |req.keys|)
    ensures r.Some? && r.value.Ok? ==> UpdatesFrom(req, entries, data, n, |req.keys|, r.value.value)
    ensures r.Some? && r.value.Err? ==> exists i: nat :: FailsAt(req, entries, data, n, i)
    ensures r == None ==> exists i: nat :: HangsAt(req, entries, data, n, i)
  {
    hide Updated, CanUpdate, SomeHangs, UpdatesFrom;
    var updates: KeyData := map[];
    UpdatesNone(req, entries, data, n);
    for i := 0 to |req.keys|
      invariant UpdatesFrom(req, entries, data, n, i, updates)
      invariant AllUpdate(req, entries, data, n, i)
    {
      var key := req.keys[i];
      var size := SizeFor(key, req.consistencyLast, n);
      if size == None {
        assert FailsAt(req, entries, data, n, i);
        NotAllUpdate(req, entries, data, n, i);
        return Some(Err(RequiredFieldMissing));
      }
      var mdw := new MonitoringDataWrapper(Some(data[key.searchKey]));
      var updated := mdw.Update(size.value, entries[i]);
      if updated == None {
        assert HangsAt(req, entries, data, n, i);
        NotAllUpdate(req, entries, data, n, i);
        return None;
      }
      if updated.value.Err? {
        assert FailsAt(req, entries, data, n, i);
        NotAllUpdate(req, entries, data, n, i);
        return Some(Err(updated.value.error));
      }
      UpdateNext(req, entries, data, n, i, updates, mdw.inner.value);
      updates := updates[key.searchKey := mdw.inner.value];
    }
    return Some(Ok(updates));
  }

  lemma NotAllUpdate(req: MonitorRequest, entries: seq<map<nat, ProofStep>>, data: KeyData, n: u64, i: nat)
    requires |req.keys| == |entries| && Known(req, data) && i < |req.keys| && !KeyUpdates(req, entries, data, n, i)
    ensures !AllUpdate(req, entries, data, n, |req.keys|)
  {
    hide KeyUpdates;
  }

  lemma UpdatesNone(req: MonitorRequest, entries: seq<map<nat, ProofStep>>, data: KeyData, n: u64)
    requires |req.keys| == |entries|
    ensures UpdatesFrom(req, entries, data, n, 0, map[])
  {
  }

  // ---------------------------------------------------------------------------------------------
  // A whole monitoring response.

  datatype MonitorUpdate = MonitorUpdate(head: LastTreeHead, data: KeyData)

  /** The response was accepted with this evidence, every key could be updated and was. */
  ghost predicate MonitorTaken(c: Client, req: MonitorRequest, res: MonitorResponse, data: KeyData, e: MonitorEvidence,
                               update: MonitorUpdate)
  {
    && MonitorAccepted(c, req, res, data, e) && |e.entries| == |req.keys|
    && update.head == LastTreeHead(res.treeHead.value.treeHead.value, e.root)
    && UpdatesFrom(req, e.entries, data, res.treeHead.value.treeHead.value.treeSize, |req.keys|, update.data)
    && Known(req, data) && AllUpdate(req, e.entries, data, res.treeHead.value.treeHead.value.treeSize, |req.keys|)
  }

  lemma AcceptedKnown(c: Client, req: MonitorRequest, res: MonitorResponse, data: KeyData, e: MonitorEvidence)
    requires MonitorAccepted(c, req, res, data, e)
    ensures |e.entries| == |req.keys| && Known(req, data)
  {
    hide HeadAccepted, RootFor, FullPath, StepHolds, EntriesFor, OnSomePath, PathReturns;
    var n := res.treeHead.value.treeHead.value.treeSize;
    forall i | 0 <= i < |req.keys|
      ensures req.keys[i].searchKey in data
    {
      assert KeyGathered(req.keys[i], res.proofs[i], data, n, e.leaves, e.entries[i]);
    }
  }

  /** Verify a monitoring response and update the stored data, for every response and all stored data. */
  method VerifyMonitor(c: Client, req: MonitorRequest, res: MonitorResponse, data: KeyData)
    returns (r: Option<VerifyResult<MonitorUpdate>>, ghost e: MonitorEvidence)
    requires c.distinguished.Some? && (req.consistencyLast.Some? ==> req.consistencyLast.value <= MAX_TREE_SIZE)
    ensures r.Some? && r.value.Ok? ==> MonitorTaken(c, req, res, data, e, r.value.value)
    ensures r.Some? && r.value.Err? ==>
              || (forall b :: !MonitorAccepted(c, req, res, data, b))
              || (MonitorAccepted(c, req, res, data, e) && |e.entries| == |req.keys| && Known(req, data)
                  && exists i: nat :: FailsAt(req, e.entries, data, res.treeHead.value.treeHead.value.treeSize, i))
    ensures r == None ==>
              || MonitorStuck(req, res, data)
              || (MonitorAccepted(c, req, res, data, e) && |e.entries| == |req.keys| && Known(req, data)
                  && exists i: nat :: HangsAt(req, e.entries, data, res.treeHead.value.treeHead.value.treeSize, i))
    ensures MonitorStuck(req, res, data) ==> r == None
  {
    hide MonitorHolds, HeadAccepted, MonitorStuck, FailsAt, HangsAt, AllUpdate, UpdatesFrom, Known;
    var verified;
    verified, e := VerifyMonitorProof(c, req, res, data);
    if verified == None {
      return None, e;
    }
    if verified.value.Err? {
      return Some(Err(verified.value.error)), e;
    }
    var (head, entries) := verified.value.value;
    AcceptedKnown(c, req, res, data, e);
    var updated := UpdateKeys(req, entries, data, head.head.treeSize);
    if updated == None {
      return None, e;
    }
    if updated.value.Err? {
      return Some(Err(updated.value.error)), e;
    }
    return Some(Ok(MonitorUpdate(head, updated.value.value))), e;
  }
}
