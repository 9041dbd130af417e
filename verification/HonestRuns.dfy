/** Runs with an honest server: every exchange goes through, but for one that never ends. */
module HonestRuns {
  import opened Wrappers
  import opened Bits
  import opened Hashes
  import opened Merkle
  import opened Prefix
  import opened Heads
  import opened Monitor
  import opened MonitorRuns
  import opened Search
  import opened MonitorProofs
  import opened ClientUpdates
  import opened ClientRuns
  import opened HonestServer
  import Guide

  /** A run of this client. */
  ghost predicate RunOf(c: Client, states: seq<ClientState>, xs: seq<Exchange>) {
    IsClientRun(states, xs, c.config, c.check, c.indexOf) && c.last == states[|xs|].last
  }

  lemma RunExtends(c: Client, states: seq<ClientState>, xs: seq<Exchange>, x: Exchange, s': ClientState)
    requires RunOf(c, states, xs) && x.c == c && Exchanged(states[|xs|], x, s')
    ensures IsClientRun(states + [s'], xs + [x], c.config, c.check, c.indexOf)
  {
    hide Exchanged;
    var states', xs' := states + [s'], xs + [x];
    forall i | 0 <= i < |xs'|
      ensures ExchangeAt(states', xs', i, c.config, c.check, c.indexOf)
    {
      if i < |xs| { assert ExchangeAt(states, xs, i, c.config, c.check, c.indexOf); }
    }
  }

  // ---------------------------------------------------------------------------------------------
  // Searches.

  lemma AcceptedDoesNotPanic(c: Client, req: SearchRequest, res: SearchResponse, e: Evidence)
    requires IsKey(c.indexOf(req.searchKey)) && SearchAccepted(c, req, res, e)
    ensures forall b :: !CommitPanics(c, req, res, b)
  {
    hide ProofHolds, HeadAccepted;
  }

  lemma AcceptedOnce(c: Client, req: SearchRequest, res: SearchResponse, e: Evidence, b: Evidence)
    requires IsKey(c.indexOf(req.searchKey)) && SearchAccepted(c, req, res, e) && SearchAccepted(c, req, res, b)
    ensures e == b
  {
    hide ProofHolds, HeadAccepted, Opened;
    HoldsOnce(c.indexOf(req.searchKey), res.search.value, req.version, res.treeHead.treeHead.value.treeSize, e, b);
  }

  /** After any run of the client, the honest answer to a search for an ordinary key goes through and
  extends the run, and the value returned is the one on record for the version. */
  method SearchHonestly(ghost states: seq<ClientState>, ghost xs: seq<Exchange>, c: Client, req: SearchRequest,
                        data: Option<MonitoringData>, monitor: bool, log: seq<Hash>, start: u64, cnt: nat -> nat,
                        records: nat -> Record, head: TreeHead, auditors: seq<FullAuditorTreeHead>)
    returns (res: SearchResponse, update: SearchUpdate, ghost x: Exchange, ghost s': ClientState)
    requires RunOf(c, states, xs) && data == DataFor(states[|xs|], req.searchKey) && req.searchKey != DISTINGUISHED
    requires IsKey(c.indexOf(req.searchKey)) && Presents(c, log, head, auditors)
    requires start < |log| && KeyHistory(log, c.indexOf(req.searchKey), start, cnt)
    requires req.version.Some? ==> exists y | start <= y < |log| :: cnt(y) == req.version.value
    requires Kept(log, req.searchKey, start, cnt, records)
    ensures IsClientRun(states + [s'], xs + [x], c.config, c.check, c.indexOf)
    ensures x.SearchDone? && x.c == c && x.req == req && x.res == res && x.update == update
    ensures update.head == LastTreeHead(head, RootOf(log)) && s'.last == Some(update.head)
    ensures res.value == Some(records(x.v.id).value)
    ensures Leftmost(x.v.id, x.v.version, start, cnt)
    ensures x.v.version == if req.version.Some? then req.version.value else cnt(|log| - 1)
  {
    hide SearchAccepted, Describes, ExchangeAt, Vouched, Earlier, KeyHistory, Kept, RootOf, Rejects, SearchHangs, CommitPanics,
         Step, Leftmost;
    ghost var mine;
    res, mine := AnswerSearchRequest(c, req, log, start, cnt, records, head, auditors);
    AcceptedDoesNotPanic(c, req, res, mine);
    var r; ghost var e, v;
    r, e, v := VerifySearch(c, req, res, data, monitor);
    if SearchAccepted(c, req, res, e) && Describes(v, c, req, res, e) {
      AcceptedOnce(c, req, res, mine, e);
      DescribedHead(c, req, res, e, v);
      DescribedFacts(c, req, res, e, v);
      HonestSearchSucceeds(states, xs, c.config, c.check, c.indexOf, c, req, res, e, v, monitor, log, start, cnt);
    }
    assert r.Some? && r.value.Ok?;
    update := r.value.value;
    x := SearchDone(c, req, res, monitor, e, v, update);
    var s := states[|xs|];
    s' := ClientState(Some(update.head), if update.data == None then s.data else s.data[req.searchKey := update.data.value]);
    RunExtends(c, states, xs, x, s');
    FoundWhere(c, req, res, e, v, log, start, cnt);
  }

  lemma FoundWhere(c: Client, req: SearchRequest, res: SearchResponse, e: Evidence, v: VerifiedSearch, log: seq<Hash>,
                   start: nat, cnt: nat -> nat)
    requires IsKey(c.indexOf(req.searchKey)) && SearchAccepted(c, req, res, e) && Describes(v, c, req, res, e)
    requires log != [] && res.treeHead.treeHead.value.treeSize == |log| && e.root == RootOf(log)
    requires KeyHistory(log, c.indexOf(req.searchKey), start, cnt)
    ensures v.id == e.trace.first && Leftmost(v.id, v.version, start, cnt) && v.pos == start
    ensures v.version == if req.version.Some? then req.version.value else cnt(|log| - 1)
  {
    hide ProofHolds, HeadAccepted, Opened, StepsOf, RootOf, KeyHistory;
    SearchIsSound(v.index, res.search.value, req.version, e, log, start, cnt);
  }

  // ---------------------------------------------------------------------------------------------
  // Monitoring.

  /** The log records the key from some position on, with counters that never fall. */
  ghost predicate HasHistory(log: seq<Hash>, index: Key) {
    exists first: nat, cnt: nat -> nat :: KeyHistory(log, index, first, cnt)
  }

  /** An ordinary key the client monitors, at one of its entries. */
  ghost predicate Monitorable(key: MonitorKey, data: KeyData, log: seq<Hash>) {
    && key.searchKey in data && key.searchKey != DISTINGUISHED
    && data[key.searchKey].pos <= key.entryPosition < |log| && HasHistory(log, data[key.searchKey].index)
  }

  ghost predicate AllMonitorable(req: MonitorRequest, data: KeyData, log: seq<Hash>) {
    forall i | 0 <= i < |req.keys| :: Monitorable(req.keys[i], data, log)
  }

  lemma HistoryRecords(log: seq<Hash>, index: Key, first: nat, cnt: nat -> nat)
    requires KeyHistory(log, index, first, cnt)
    ensures Recorded(log, index, first)
  {
    hide Prefix.Stored, Guide.NonDecreasing;
    forall p | first <= p < |log|
      ensures RecordedAt(log[p], index, first)
    {
      assert RecordAt(log[p], index, if p < first then None else Some((cnt(p), first)));
    }
  }

  /** What a run has stored about a key agrees with the log on where the key starts. */
  lemma StoredIsAnswerable(states: seq<ClientState>, xs: seq<Exchange>, c: Client, key: MonitorKey, log: seq<Hash>,
                           head: TreeHead, auditors: seq<FullAuditorTreeHead>)
    requires RunOf(c, states, xs) && Presents(c, log, head, auditors) && Monitorable(key, states[|xs|].data, log)
    ensures Answerable(key, states[|xs|].data, log)
  {
    hide ExchangeAt, HeadAccepted, RootOf, KeyHistory, PointersBound, Vouched, Earlier, DataOk, InTree, Recorded, HeadFor;
    var s := states[|xs|];
    var d := s.data[key.searchKey];
    HeadIsAccepted(c, log, head, auditors);
    HeadForIs(c, log, head, auditors);
    assert log[..|log|] == log;
    NextHeadBindsStored(states, xs, c.config, c.check, c.indexOf, c, HeadFor(c, log, head, auditors), RootOf(log), log);
    RunStaysGood(states, xs, c.config, c.check, c.indexOf, |xs|);
    assert GoodData(key.searchKey, d, StoredSize(s), c.indexOf) && PointersBound(d, log);
    var first: nat, cnt: nat -> nat :| KeyHistory(log, d.index, first, cnt);
    BoundIsTruthful(d, log, first, cnt);
    HistoryRecords(log, d.index, first, cnt);
  }

  lemma HeadForIs(c: Client, log: seq<Hash>, head: TreeHead, auditors: seq<FullAuditorTreeHead>)
    ensures HeadFor(c, log, head, auditors).treeHead == Some(head)
  {
  }

  /** No key fails or hangs. */
  lemma KeysGoThrough(states: seq<ClientState>, xs: seq<Exchange>, c: Client, req: MonitorRequest, res: MonitorResponse,
                      e: MonitorEvidence, log: seq<Hash>)
    requires RunOf(c, states, xs) && MonitorAccepted(c, req, res, states[|xs|].data, e)
    requires |log| == res.treeHead.value.treeHead.value.treeSize && e.root == RootOf(log)
    requires AllMonitorable(req, states[|xs|].data, log)
    ensures |e.entries| == |req.keys| && Known(req, states[|xs|].data)
    ensures forall i: nat :: !FailsAt(req, e.entries, states[|xs|].data, |log|, i) && !HangsAt(req, e.entries, states[|xs|].data, |log|, i)
  {
    hide ExchangeAt, MonitorAccepted, RootOf, KeyHistory, CanStep, StepReturns, AllUpdate;
    var data := states[|xs|].data;
    AcceptedKnown(c, req, res, data, e);
    MonitorHead(c, req, res, data, e);
    var n := res.treeHead.value.treeHead.value.treeSize;
    forall i: nat
      ensures !FailsAt(req, e.entries, data, n, i) && !HangsAt(req, e.entries, data, n, i)
    {
      if i < |req.keys| {
        assert Monitorable(req.keys[i], data, log);
        var first: nat, cnt: nat -> nat :| KeyHistory(log, data[req.keys[i].searchKey].index, first, cnt);
        HonestKeySucceeds(states, xs, c.config, c.check, c.indexOf, c, req, res, e, i, log, first, cnt);
      }
    }
  }

  lemma MonitorRootOnce(c: Client, req: MonitorRequest, res: MonitorResponse, data: KeyData, e: MonitorEvidence, b: MonitorEvidence)
    requires MonitorAccepted(c, req, res, data, e) && MonitorAccepted(c, req, res, data, b)
    ensures e.root == b.root
  {
    hide Gathered, HeadAccepted, SortedPairs;
    EvidenceUnique(req, res, data, res.treeHead.value.treeHead.value.treeSize, e.leaves, e.entries, b);
    if e.leaves != map[] { SortedPairsUnique(e.leaves, e.ids, e.values, b.ids, b.values); }
  }

  lemma AllReturn(req: MonitorRequest, res: MonitorResponse, data: KeyData, log: seq<Hash>)
    requires MonitorInRange(req, res) && |log| == res.treeHead.value.treeHead.value.treeSize && AllMonitorable(req, data, log)
    ensures !MonitorStuck(req, res, data)
  {
    hide MonitorStuck, HasHistory;
    forall i | 0 <= i < |req.keys| && req.keys[i].searchKey in data
      ensures data[req.keys[i].searchKey].pos <= req.keys[i].entryPosition < res.treeHead.value.treeHead.value.treeSize
    {
      assert Monitorable(req.keys[i], data, log);
    }
    LargeTreeReturns(req, res, data);
  }

  /** After any run of the client, the honest answer to a monitoring request for ordinary keys goes through
  and extends the run. */
  method MonitorHonestly(ghost states: seq<ClientState>, ghost xs: seq<Exchange>, c: Client, req: MonitorRequest,
                         data: KeyData, log: seq<Hash>, head: TreeHead, auditors: seq<FullAuditorTreeHead>)
    returns (res: MonitorResponse, update: MonitorUpdate, ghost x: Exchange, ghost s': ClientState)
    requires RunOf(c, states, xs) && data == states[|xs|].data && c.distinguished.Some?
    requires req.consistencyLast.Some? ==> req.consistencyLast.value <= MAX_TREE_SIZE
    requires Presents(c, log, head, auditors) && AllMonitorable(req, data, log)
    ensures IsClientRun(states + [s'], xs + [x], c.config, c.check, c.indexOf)
    ensures x.MonitorDone? && x.c == c && x.mreq == req && x.mres == res && x.mupdate == update
    ensures update.head == LastTreeHead(head, RootOf(log)) && s'.last == Some(update.head)
  {
    hide MonitorHolds, HeadAccepted, ExchangeAt, Vouched, Earlier, Monitorable, Answerable, RootOf, FailsAt, HangsAt,
         MonitorStuck, UpdatesFrom, Known;
    forall i | 0 <= i < |req.keys|
      ensures Answerable(req.keys[i], data, log)
    {
      StoredIsAnswerable(states, xs, c, req.keys[i], log, head, auditors);
    }
    ghost var mine;
    res, mine := AnswerMonitorRequest(c, req, data, log, head, auditors);
    AllReturn(req, res, data, log);
    var r; ghost var e;
    r, e := VerifyMonitor(c, req, res, data);
    if MonitorAccepted(c, req, res, data, e) {
      MonitorRootOnce(c, req, res, data, mine, e);
      KeysGoThrough(states, xs, c, req, res, e, log);
    }
    assert r.Some? && r.value.Ok?;
    update := r.value.value;
    x := MonitorDone(c, req, res, e, update);
    s' := ClientState(Some(update.head), data + update.data);
    RunExtends(c, states, xs, x, s');
  }
}
