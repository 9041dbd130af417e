/** What a client's whole run of accepted searches and monitoring responses guarantees. */
module ClientRuns {
  import opened Wrappers
  import opened Bits
  import opened Paths
  import opened Hashes
  import opened Merkle
  import opened BatchProof
  import opened Prefix
  import opened Heads
  import opened Monitor
  import opened MonitorRuns
  import opened MonitorRules
  import opened Search
  import opened MonitorProofs
  import opened ClientUpdates
  import Guide

  // ---------------------------------------------------------------------------------------------
  // What the stored data says about the log.

  /** Every stored pointer carries the counter this log records there. */
  ghost predicate PointersBound(data: MonitoringData, log: seq<Hash>) {
    forall p | p in data.ptrs :: p < |log| && CounterAt(log[p], data.index, data.pos) == Some(data.ptrs[p])
  }

  /** What an accepted response shows is what this log records. */
  ghost predicate EventBound(e: Event, index: seq<byte>, pos: nat, log: seq<Hash>)
    requires IsKey(index)
  {
    && EntriesBound(e.entries, index, pos, log)
    && (e.Searched? ==> e.verPos < |log| && CounterAt(log[e.verPos], index, pos) == Some(e.version))
  }

  lemma UpdateKeepsBound(before: MonitoringData, size: nat, entries: map<nat, ProofStep>, after: MonitoringData, log: seq<Hash>)
    requires Updated(before, size, entries, after) && PointersBound(before, log)
    requires EntriesBound(entries, before.index, before.pos, log)
    ensures PointersBound(after, log)
  {
    hide Target, CounterAt, AtOrRightAbove, IsMaximum;
    forall t | t in after.ptrs
      ensures t < |log| && CounterAt(log[t], after.index, after.pos) == Some(after.ptrs[t])
    {
      var p := SourceOf(before, size, entries, after, t);
      TargetIs(p, before.ptrs[p], size, entries);
      if t in entries { assert EntryBound(t, entries[t], before.index, before.pos, log); }
    }
  }

  /** A step over what the log records leaves the pointers at what the log records. */
  lemma StepKeepsBound(before: MonitoringData, e: Event, after: MonitoringData, log: seq<Hash>)
    requires Step(before, e, after) && PointersBound(before, log)
    requires EventBound(e, before.index, before.pos, log)
    ensures after.index == before.index && after.pos == before.pos && PointersBound(after, log)
  {
    hide Updated, RightPath, FirstOnPath, CounterAt, EntriesBound;
    StepFrame(before, e, after);
    match e {
      case Searched(size, verPos, version, owned, entries) =>
        var mid := Checked(before, size, before.index, before.pos, verPos, version, owned).value;
        UpdateKeepsBound(mid, size, entries, after, log);
      case Monitored(size, entries) =>
        UpdateKeepsBound(before, size, entries, after, log);
    }
  }

  lemma BoundExtends(e: Event, index: seq<byte>, pos: nat, log: seq<Hash>, size: nat)
    requires IsKey(index) && size <= |log| && EventBound(e, index, pos, log[..size])
    ensures EventBound(e, index, pos, log)
  {
    hide CounterAt;
    forall p | p in e.entries
      ensures EntryBound(p, e.entries[p], index, pos, log)
    {
      assert EntryBound(p, e.entries[p], index, pos, log[..size]);
    }
  }

  // ---------------------------------------------------------------------------------------------
  // Accepted responses bind the log their root stands for.

  /** An accepted search shows what any log with its root records. */
  lemma SearchBindsLog(c: Client, req: SearchRequest, res: SearchResponse, e: Evidence, v: VerifiedSearch, monitor: bool, log: seq<Hash>)
    requires IsKey(c.indexOf(req.searchKey)) && SearchAccepted(c, req, res, e) && Describes(v, c, req, res, e)
    requires |log| == v.head.head.treeSize && e.root == RootOf(log)
    ensures EventBound(SearchEvent(v, monitor), v.index, v.pos, log)
  {
    hide ProofHolds, Opened, HeadAccepted, RootOf, CounterAt, EntryBound;
    var proof := res.search.value;
    SearchIsSharp(v.index, proof, req.version, e, log);
    HoldsFacts(v.index, proof, req.version, v.head.head.treeSize, e);
    forall p | p in v.steps
      ensures EntryBound(p, v.steps[p], v.index, v.pos, log)
    {
      StepIsBound(v.index, proof, req.version, e, log, v.steps, p);
    }
  }

  lemma StepIsBound(index: seq<byte>, proof: SearchProof, request: Option<nat>, e: Evidence, log: seq<Hash>,
                    steps: map<nat, ProofStep>, p: nat)
    requires IsKey(index) && log != [] && ProofHolds(index, proof, request, |log|, e) && e.root == RootOf(log)
    requires StepsOf(proof, e.trace.fetched, steps) && p in steps
    ensures EntryBound(p, steps[p], index, proof.pos, log)
  {
    hide EvaluateBatch, RootOf, CounterAt, StepLeaf, SortedPairs, LeavesOf, Guide.Ends, Guide.Followed, Guide.Asks;
    assert FetchedId(e.trace.fetched, p);
    var k :| 0 <= k < |e.trace.fetched| && e.trace.fetched[k].id == p;
    EvidenceBinds(index, proof, request, e, log, k);
    assert StepAt(index, proof, |log|, e.trace.fetched[k], k);
    StepBinds(index, proof.pos, proof.steps[k]);
  }

  /** An accepted monitoring response shows, for each key, what any log with its root records. */
  lemma MonitorBindsLog(c: Client, req: MonitorRequest, res: MonitorResponse, data: KeyData, e: MonitorEvidence, i: nat, log: seq<Hash>)
    requires MonitorAccepted(c, req, res, data, e) && i < |req.keys|
    requires |log| == res.treeHead.value.treeHead.value.treeSize && e.root == RootOf(log)
    ensures req.keys[i].searchKey in data && i < |e.entries|
    ensures var d := data[req.keys[i].searchKey]; EntriesBound(e.entries[i], d.index, d.pos, log)
  {
    hide Gathered, RootFor, HeadAccepted, RootOf, CounterAt, FullPath, EntriesBound;
    MonitorIsSound(req, res, data, e, log, i);
  }

  // ---------------------------------------------------------------------------------------------
  // Runs.

  datatype ClientState = ClientState(last: Option<LastTreeHead>, data: KeyData)

  /** One accepted response, with the evidence it was accepted on and the update it led to. */
  datatype Exchange =
    | SearchDone(c: Client, req: SearchRequest, res: SearchResponse, monitor: bool, e: Evidence, v: VerifiedSearch, update: SearchUpdate)
    | MonitorDone(c: Client, mreq: MonitorRequest, mres: MonitorResponse, me: MonitorEvidence, mupdate: MonitorUpdate)

  function DataFor(s: ClientState, key: seq<byte>): Option<MonitoringData> {
    if key in s.data then Some(s.data[key]) else None
  }

  /** The response is verified against the stored head and data, and head and data are stored. */
  ghost predicate Exchanged(s: ClientState, x: Exchange, s': ClientState) {
    && x.c.last == s.last
    && match x
       case SearchDone(c, req, res, monitor, e, v, update) =>
         && IsKey(c.indexOf(req.searchKey))
         && SearchTaken(c, req, res, DataFor(s, req.searchKey), monitor, e, v, update)
         && s'.last == Some(update.head)
         && s'.data == if update.data == None then s.data else s.data[req.searchKey := update.data.value]
       case MonitorDone(c, req, res, e, update) =>
         && MonitorTaken(c, req, res, s.data, e, update)
         && s'.last == Some(update.head) && s'.data == s.data + update.data
  }

  /** A run from nothing, with one configuration: every response in it was accepted. */
  ghost predicate IsClientRun(states: seq<ClientState>, xs: seq<Exchange>, config: PublicConfig, check: SignatureCheck,
                              indexOf: seq<byte> -> seq<byte>)
  {
    && |states| == |xs| + 1 && states[0] == ClientState(None, map[])
    && forall i | 0 <= i < |xs| :: ExchangeAt(states, xs, i, config, check, indexOf)
  }

  ghost predicate ExchangeAt(states: seq<ClientState>, xs: seq<Exchange>, i: nat, config: PublicConfig, check: SignatureCheck,
                             indexOf: seq<byte> -> seq<byte>)
    requires i < |xs| && |states| == |xs| + 1
  {
    && xs[i].c.config == config && xs[i].c.check == check && xs[i].c.indexOf == indexOf
    && Exchanged(states[i], xs[i], states[i + 1])
  }

  /** The head of a response as it was accepted. */
  function HeadOf(x: Exchange): Accepted {
    match x
    case SearchDone(c, _, res, _, e, _, _) => Accepted(res.treeHead, e.root, c.distinguished, c.now)
    case MonitorDone(c, _, res, e, _) =>
      Accepted(if res.treeHead.Some? then res.treeHead.value else FullTreeHead(None, [], [], []), e.root, c.distinguished, c.now)
  }

  function HeadsOf(xs: seq<Exchange>): (heads: seq<Accepted>)
    ensures |heads| == |xs| && forall i | 0 <= i < |xs| :: heads[i] == HeadOf(xs[i])
  {
    seq(|xs|, i requires 0 <= i < |xs| => HeadOf(xs[i]))
  }

  /** An exchange stores the head it accepted. */
  lemma ExchangeHead(s: ClientState, x: Exchange, s': ClientState)
    requires Exchanged(s, x, s')
    ensures HeadOf(x).fth.treeHead.Some? && 1 <= SizeOf(HeadOf(x)) <= MAX_TREE_SIZE
    ensures s'.last == Some(Heads.Stored(HeadOf(x)))
    ensures HeadAccepted(x.c.config, HeadOf(x).fth, HeadOf(x).root, s.last, HeadOf(x).distinguished, HeadOf(x).now, x.c.check)
  {
    hide ProofHolds, Opened, HeadAccepted, StepsOf, Step, MonitorHolds, UpdatesFrom;
  }

  lemma HeadsRun(states: seq<ClientState>, xs: seq<Exchange>, config: PublicConfig, check: SignatureCheck, indexOf: seq<byte> -> seq<byte>)
    requires IsClientRun(states, xs, config, check, indexOf)
    ensures IsRun(HeadsOf(xs), config, check)
  {
    hide HeadAccepted, Exchanged;
    var heads := HeadsOf(xs);
    forall i | 0 <= i < |heads|
      ensures StepAccepted(heads, i, config, check)
    {
      assert ExchangeAt(states, xs, i, config, check, indexOf);
      ExchangeHead(states[i], xs[i], states[i + 1]);
      if i > 0 {
        assert ExchangeAt(states, xs, i - 1, config, check, indexOf);
        ExchangeHead(states[i - 1], xs[i - 1], states[i]);
      }
    }
  }

  // ---------------------------------------------------------------------------------------------
  // Everything shown is in the log.

  /** What the exchange showed is what this log records. */
  ghost predicate ShownIn(s: ClientState, x: Exchange, log: seq<Hash>) {
    match x
    case SearchDone(_, _, _, monitor, _, v, _) => EventBound(SearchEvent(v, monitor), v.index, v.pos, log)
    case MonitorDone(_, req, _, e, _) => forall i | 0 <= i < |req.keys| :: KeyShown(s, req, e, i, log)
  }

  ghost predicate KeyShown(s: ClientState, req: MonitorRequest, e: MonitorEvidence, i: nat, log: seq<Hash>)
    requires i < |req.keys|
  {
    && req.keys[i].searchKey in s.data && i < |e.entries|
    && EntriesBound(e.entries[i], s.data[req.keys[i].searchKey].index, s.data[req.keys[i].searchKey].pos, log)
  }

  /** An exchange shows what any log its root stands for records, however much longer. */
  lemma ExchangeShows(s: ClientState, x: Exchange, s': ClientState, log: seq<Hash>)
    requires Exchanged(s, x, s') && Commits(HeadOf(x).root, SizeOf(HeadOf(x)), log)
    ensures ShownIn(s, x, log)
  {
    hide SearchAccepted, Describes, MonitorAccepted, Step, UpdatesFrom, RootOf, EventBound, EntriesBound;
    ExchangeHead(s, x, s');
    var size := SizeOf(HeadOf(x));
    var part := log[..size];
    assert |part| == size;
    match x {
      case SearchDone(c, req, res, monitor, e, v, update) =>
        DescribedHead(c, req, res, e, v);
        SearchBindsLog(c, req, res, e, v, monitor, part);
        BoundExtends(SearchEvent(v, monitor), v.index, v.pos, log, size);
      case MonitorDone(c, req, res, e, update) =>
        forall i | 0 <= i < |req.keys|
          ensures KeyShown(s, req, e, i, log)
        {
          MonitorHead(c, req, res, s.data, e);
          MonitorBindsLog(c, req, res, s.data, e, i, part);
          var d := s.data[req.keys[i].searchKey];
          EntriesExtend(e.entries[i], d.index, d.pos, log, size);
        }
    }
  }

  lemma DescribedHead(c: Client, req: SearchRequest, res: SearchResponse, e: Evidence, v: VerifiedSearch)
    requires IsKey(c.indexOf(req.searchKey)) && SearchAccepted(c, req, res, e) && Describes(v, c, req, res, e)
    ensures res.treeHead.treeHead.Some? && v.head == LastTreeHead(res.treeHead.treeHead.value, e.root)
  {
    hide ProofHolds, Opened, HeadAccepted, StepsOf;
  }

  lemma MonitorHead(c: Client, req: MonitorRequest, res: MonitorResponse, data: KeyData, e: MonitorEvidence)
    requires MonitorAccepted(c, req, res, data, e)
    ensures res.treeHead.Some? && res.treeHead.value.treeHead.Some?
  {
    hide MonitorHolds, HeadAccepted;
  }

  lemma EntriesExtend(entries: map<nat, ProofStep>, index: seq<byte>, pos: nat, log: seq<Hash>, size: nat)
    requires IsKey(index) && size <= |log| && EntriesBound(entries, index, pos, log[..size])
    ensures EntriesBound(entries, index, pos, log)
  {
    hide CounterAt;
    forall p | p in entries
      ensures EntryBound(p, entries[p], index, pos, log)
    {
      assert EntryBound(p, entries[p], index, pos, log[..size]);
    }
  }

  /** The log that the last head of a run commits to. */
  ghost predicate Ends(xs: seq<Exchange>, log: seq<Hash>) {
    xs != [] && Commits(HeadOf(xs[|xs| - 1]).root, SizeOf(HeadOf(xs[|xs| - 1])), log)
  }

  /** Whatever log the latest root of a run commits to, every response accepted in the run showed what
  that log records: nothing accepted earlier is contradicted later. */
  lemma EveryResponseIsBound(states: seq<ClientState>, xs: seq<Exchange>, config: PublicConfig, check: SignatureCheck,
                             indexOf: seq<byte> -> seq<byte>, log: seq<Hash>, i: nat)
    requires IsClientRun(states, xs, config, check, indexOf) && Ends(xs, log) && i < |xs|
    ensures ShownIn(states[i], xs[i], log)
  {
    hide Exchanged, ShownIn, Commits;
    HeadsRun(states, xs, config, check, indexOf);
    RunIsAppendOnly(HeadsOf(xs), config, check, i, log);
    assert ExchangeAt(states, xs, i, config, check, indexOf);
    ExchangeShows(states[i], xs[i], states[i + 1], log);
  }

  // ---------------------------------------------------------------------------------------------
  // One version, one value.

  lemma HistoryOfPart(log: seq<Hash>, index: Key, first: nat, cnt: nat -> nat, size: nat)
    requires KeyHistory(log, index, first, cnt) && size <= |log|
    ensures KeyHistory(log[..size], index, first, cnt)
  {
    hide Prefix.Stored;
    forall i | 0 <= i < size
      ensures RecordAt(log[..size][i], index, if i < first then None else Some((cnt(i), first)))
    {
      assert RecordAt(log[i], index, if i < first then None else Some((cnt(i), first)));
    }
  }

  /** The first position at which the key has this version. */
  ghost predicate Leftmost(p: nat, version: nat, first: nat, cnt: nat -> nat) {
    first <= p && cnt(p) == version && forall i | first <= i < p :: cnt(i) < version
  }

  lemma LeftmostOnce(p: nat, q: nat, version: nat, first: nat, cnt: nat -> nat)
    requires Leftmost(p, version, first, cnt) && Leftmost(q, version, first, cnt)
    ensures p == q
  {
  }

  /** A search accepted in a run opens the entry of the final log that first carries its version. */
  lemma SearchOpensFirst(s: ClientState, x: Exchange, s': ClientState, log: seq<Hash>, first: nat, cnt: nat -> nat)
    requires Exchanged(s, x, s') && x.SearchDone? && Commits(HeadOf(x).root, SizeOf(HeadOf(x)), log)
    requires KeyHistory(log, x.c.indexOf(x.req.searchKey), first, cnt)
    ensures Leftmost(x.v.id, x.v.version, first, cnt) && OpensAt(log, x.v.id, x.req.searchKey, x.res)
  {
    hide SearchAccepted, ProofHolds, HeadAccepted, Step, RootOf, KeyHistory, Marshal;
    ExchangeHead(s, x, s');
    DescribedHead(x.c, x.req, x.res, x.e, x.v);
    var index, part := x.c.indexOf(x.req.searchKey), log[..SizeOf(HeadOf(x))];
    HistoryOfPart(log, index, first, cnt, |part|);
    AcceptedHolds(x.c, x.req, x.res, x.e);
    SearchIsSound(index, x.res.search.value, x.req.version, x.e, part, first, cnt);
    AcceptedOpensLog(x.c, x.req, x.res, x.e, part);
  }

  lemma AcceptedHolds(c: Client, req: SearchRequest, res: SearchResponse, e: Evidence)
    requires IsKey(c.indexOf(req.searchKey)) && SearchAccepted(c, req, res, e)
    ensures res.treeHead.treeHead.Some? && res.search.Some?
    ensures ProofHolds(c.indexOf(req.searchKey), res.search.value, req.version, res.treeHead.treeHead.value.treeSize, e)
  {
    hide ProofHolds, HeadAccepted, Opened;
  }

  /** What the user sees: any two searches accepted in a run for one key that return the same version,
  whether it was asked for or the newest, return the same value, if the key's counters never fall in the
  log the latest root commits to. */
  lemma SameVersionSameValue(states: seq<ClientState>, xs: seq<Exchange>, config: PublicConfig, check: SignatureCheck,
                             indexOf: seq<byte> -> seq<byte>, log: seq<Hash>, first: nat, cnt: nat -> nat, i: nat, j: nat)
    requires IsClientRun(states, xs, config, check, indexOf) && Ends(xs, log) && i < |xs| && j < |xs|
    requires xs[i].SearchDone? && xs[j].SearchDone? && xs[i].req.searchKey == xs[j].req.searchKey
    requires IsKey(indexOf(xs[i].req.searchKey)) && KeyHistory(log, indexOf(xs[i].req.searchKey), first, cnt)
    requires xs[i].v.version == xs[j].v.version
    ensures xs[i].v.id == xs[j].v.id
    ensures xs[i].res.value == xs[j].res.value && xs[i].res.opening == xs[j].res.opening
  {
    hide Exchanged, Commits, KeyHistory, Leftmost, OpensAt;
    HeadsRun(states, xs, config, check, indexOf);
    RunIsAppendOnly(HeadsOf(xs), config, check, i, log);
    RunIsAppendOnly(HeadsOf(xs), config, check, j, log);
    assert ExchangeAt(states, xs, i, config, check, indexOf) && ExchangeAt(states, xs, j, config, check, indexOf);
    SearchOpensFirst(states[i], xs[i], states[i + 1], log, first, cnt);
    SearchOpensFirst(states[j], xs[j], states[j + 1], log, first, cnt);
    LeftmostOnce(xs[i].v.id, xs[j].v.id, xs[i].v.version, first, cnt);
    ValueIsBound(log, xs[i].v.id, xs[i].req.searchKey, xs[i].res, xs[j].req.searchKey, xs[j].res);
  }

  // ---------------------------------------------------------------------------------------------
  // The stored pointers are in the log.

  ghost predicate AllBound(s: ClientState, log: seq<Hash>) {
    forall k | k in s.data :: PointersBound(s.data[k], log)
  }

  lemma StartedBound(data: Option<MonitoringData>, mode: DeploymentMode, v: VerifiedSearch, monitor: bool, log: seq<Hash>)
    requires data.Some? ==> PointersBound(data.value, log)
    requires EventBound(SearchEvent(v, monitor), v.index, v.pos, log)
    ensures Started(data, mode, v, monitor).Some? ==> PointersBound(Started(data, mode, v, monitor).value, log)
  {
    hide CounterAt, EntriesBound;
  }

  lemma ExchangeKeepsBound(s: ClientState, x: Exchange, s': ClientState, log: seq<Hash>)
    requires Exchanged(s, x, s') && AllBound(s, log) && ShownIn(s, x, log)
    ensures AllBound(s', log)
  {
    hide SearchAccepted, Describes, MonitorAccepted, Step, EventBound, EntriesBound, PointersBound, UpdatesFrom;
    match x {
      case SearchDone(c, req, res, monitor, e, v, update) =>
        var data := DataFor(s, req.searchKey);
        StartedBound(data, c.config.mode, v, monitor, log);
        var start := Started(data, c.config.mode, v, monitor);
        if start.Some? { StepKeepsBound(start.value, SearchEvent(v, monitor), update.data.value, log); }
      case MonitorDone(c, req, res, e, update) =>
        forall k | k in update.data
          ensures PointersBound(update.data[k], log)
        {
          MonitoredKeepsBound(c, req, res, s, e, update, log, k);
        }
    }
  }

  /** Where an updated key's data comes from. */
  lemma UpdateOf(req: MonitorRequest, entries: seq<map<nat, ProofStep>>, data: KeyData, n: u64, updates: KeyData, k: seq<byte>) returns (i: nat)
    requires |req.keys| == |entries| && UpdatesFrom(req, entries, data, n, |req.keys|, updates) && k in updates
    ensures i < |req.keys| && req.keys[i].searchKey == k && k in data && KeyEvent(req, entries, n, i).Some?
    ensures Step(data[k], KeyEvent(req, entries, n, i).value, updates[k])
  {
    hide Step, KeyEvent;
    assert HasUpdate(req, entries, data, n, |req.keys|, k, updates[k]);
    i :| UpdatedBy(req, entries, data, n, |req.keys|, k, updates[k], i);
  }

  lemma MonitoredKeepsBound(c: Client, req: MonitorRequest, res: MonitorResponse, s: ClientState, e: MonitorEvidence,
                            update: MonitorUpdate, log: seq<Hash>, k: seq<byte>)
    requires MonitorTaken(c, req, res, s.data, e, update) && k in update.data
    requires AllBound(s, log) && forall i | 0 <= i < |req.keys| :: KeyShown(s, req, e, i, log)
    ensures PointersBound(update.data[k], log)
  {
    hide MonitorAccepted, Step, EntriesBound, PointersBound, UpdatesFrom;
    MonitorHead(c, req, res, s.data, e);
    var n := res.treeHead.value.treeHead.value.treeSize;
    var i := UpdateOf(req, e.entries, s.data, n, update.data, k);
    assert KeyShown(s, req, e, i, log);
    StepKeepsBound(s.data[k], KeyEvent(req, e.entries, n, i).value, update.data[k], log);
  }

  /** At every moment of the run all stored pointers are what that log records. */
  lemma {:induction false} PointersStayBound(states: seq<ClientState>, xs: seq<Exchange>, config: PublicConfig, check: SignatureCheck,
                                             indexOf: seq<byte> -> seq<byte>, log: seq<Hash>, j: nat)
    requires IsClientRun(states, xs, config, check, indexOf) && Ends(xs, log) && j <= |xs|
    ensures AllBound(states[j], log)
    decreases j
  {
    hide Exchanged, ShownIn, Ends, PointersBound;
    if j > 0 {
      PointersStayBound(states, xs, config, check, indexOf, log, j - 1);
      EveryResponseIsBound(states, xs, config, check, indexOf, log, j - 1);
      assert ExchangeAt(states, xs, j - 1, config, check, indexOf);
      ExchangeKeepsBound(states[j - 1], xs[j - 1], states[j], log);
    }
  }

  // ---------------------------------------------------------------------------------------------
  // A version that falls is noticed.

  /** On the way up from this pointer, as far as this response shows it, the log never falls below it. */
  ghost predicate HeldUp(d: MonitoringData, p: nat, size: nat, entries: map<nat, ProofStep>, log: seq<Hash>)
    requires p in d.ptrs
  {
    forall q: nat | ShownUpTo(q, p, size, entries) :: RecordedNoLess(log, q, d, d.ptrs[p])
  }

  /** The log records a version of the key there, and none below v. */
  ghost predicate RecordedNoLess(log: seq<Hash>, q: nat, d: MonitoringData, v: nat) {
    q < |log| && CounterAt(log[q], d.index, d.pos).Some? && CounterAt(log[q], d.index, d.pos).value >= v
  }

  lemma NeverFallsInLog(d: MonitoringData, p: nat, size: nat, entries: map<nat, ProofStep>, log: seq<Hash>)
    requires p in d.ptrs && NeverFalls(p, d.ptrs[p], size, entries) && EntriesBound(entries, d.index, d.pos, log)
    ensures HeldUp(d, p, size, entries, log)
  {
    hide CounterAt, ShownUpTo;
    forall q: nat | ShownUpTo(q, p, size, entries)
      ensures RecordedNoLess(log, q, d, d.ptrs[p])
    {
      assert NotBelow(q, d.ptrs[p], entries);
      assert EntryBound(q, entries[q], d.index, d.pos, log);
    }
  }

  /** Over every run: when a monitoring response was accepted, no position it showed on the way up from a
  pointer the client had stored records a smaller version in the log the latest root commits to. */
  lemma MonitoredNeverFalls(states: seq<ClientState>, xs: seq<Exchange>, config: PublicConfig, check: SignatureCheck,
                            indexOf: seq<byte> -> seq<byte>, log: seq<Hash>, j: nat, i: nat, p: nat)
    requires IsClientRun(states, xs, config, check, indexOf) && Ends(xs, log) && j < |xs|
    requires xs[j].MonitorDone? && i < |xs[j].mreq.keys|
    requires xs[j].mreq.keys[i].searchKey in states[j].data && p in states[j].data[xs[j].mreq.keys[i].searchKey].ptrs
    ensures |xs[j].me.entries| == |xs[j].mreq.keys|
    ensures var x := xs[j]; var key := x.mreq.keys[i];
            var size := SizeFor(key, x.mreq.consistencyLast, SizeOf(HeadOf(x)));
            size.Some? && HeldUp(states[j].data[key.searchKey], p, size.value, x.me.entries[i], log)
  {
    hide MonitorAccepted, UpdatesFrom, HeldUp, NeverFalls, MeetWell, EntriesBound, CanUpdate, StepReturns, Ends;
    var x := xs[j];
    EveryResponseIsBound(states, xs, config, check, indexOf, log, j);
    assert ExchangeAt(states, xs, j, config, check, indexOf);
    ExchangeHead(states[j], x, states[j + 1]);
    var n, d := x.mres.treeHead.value.treeHead.value.treeSize, states[j].data[x.mreq.keys[i].searchKey];
    assert KeyUpdates(x.mreq, x.me.entries, states[j].data, n, i);
    assert KeyShown(states[j], x.mreq, x.me, i, log);
    var e := KeyEvent(x.mreq, x.me.entries, n, i).value;
    CanUpdateMeans(d.ptrs, e.size, e.entries);
    NeverFallsInLog(d, p, e.size, e.entries, log);
  }

  /** In particular, for an ordinary key monitored at its pointer: at every position of the tree above the
  pointer and to its right. */
  lemma MonitoredPointerHolds(states: seq<ClientState>, xs: seq<Exchange>, config: PublicConfig, check: SignatureCheck,
                              indexOf: seq<byte> -> seq<byte>, log: seq<Hash>, j: nat, i: nat, q: nat)
    requires IsClientRun(states, xs, config, check, indexOf) && Ends(xs, log) && j < |xs|
    requires xs[j].MonitorDone? && i < |xs[j].mreq.keys| && xs[j].mreq.keys[i].searchKey != DISTINGUISHED
    requires var key := xs[j].mreq.keys[i];
             && key.searchKey in states[j].data && key.entryPosition in states[j].data[key.searchKey].ptrs
             && RightOf(q, key.entryPosition, SizeOf(HeadOf(xs[j])))
    ensures var key := xs[j].mreq.keys[i]; var d := states[j].data[key.searchKey];
            RecordedNoLess(log, q, d, d.ptrs[key.entryPosition])
  {
    hide Exchanged, RecordedNoLess, Ends;
    var x := xs[j];
    var key := x.mreq.keys[i];
    MonitoredNeverFalls(states, xs, config, check, indexOf, log, j, i, key.entryPosition);
    assert ExchangeAt(states, xs, j, config, check, indexOf);
    ShowsWholePath(states[j], x, states[j + 1], i);
    assert ShownUpTo(q, key.entryPosition, SizeOf(HeadOf(x)), x.me.entries[i]);
  }

  lemma ShowsWholePath(s: ClientState, x: Exchange, s': ClientState, i: nat)
    requires Exchanged(s, x, s') && x.MonitorDone? && i < |x.mreq.keys|
    ensures i < |x.me.entries|
    ensures forall a: nat | RightOf(a, x.mreq.keys[i].entryPosition, SizeOf(HeadOf(x))) :: a in x.me.entries[i]
  {
    hide HeadAccepted, RootFor, UpdatesFrom, AllUpdate, FullPath, StepHolds, OnSomePath, RightPath;
    ExchangeHead(s, x, s');
    var n := x.mres.treeHead.value.treeHead.value.treeSize;
    var entry := x.mreq.keys[i].entryPosition;
    assert KeyGathered(x.mreq.keys[i], x.mres.proofs[i], s.data, n, x.me.leaves, x.me.entries[i]);
    PathReturnsBelow(entry, s.data[x.mreq.keys[i].searchKey].pos, n);
    FullPathIs(entry, n);
    RightPathOf(entry, n);
    forall a: nat | RightOf(a, entry, n)
      ensures a in x.me.entries[i]
    {
      assert a in RightPath(entry, n);
      var k :| 0 <= k < |RightPath(entry, n)| && RightPath(entry, n)[k] == a;
      assert FullPath(entry, n)[k] == a;
    }
  }

  // ---------------------------------------------------------------------------------------------
  // The stored data stays good.

  /** The tree size of the stored head. */
  function StoredSize(s: ClientState): nat {
    if s.last.Some? then s.last.value.head.treeSize else 0
  }

  /** Data stored under a key is about that key, has pointers bounded by the greatest version seen, and,
  for any key but the distinguished one, they lie in the tree last accepted. */
  ghost predicate GoodData(k: seq<byte>, d: MonitoringData, size: nat, indexOf: seq<byte> -> seq<byte>) {
    && d.index == indexOf(k) && d.ptrs != map[] && DataOk(d)
    && (k != DISTINGUISHED ==> InTree(d, size))
  }

  ghost predicate GoodState(s: ClientState, indexOf: seq<byte> -> seq<byte>) {
    forall k | k in s.data :: GoodData(k, s.data[k], StoredSize(s), indexOf)
  }

  lemma SizesGrow(s: ClientState, x: Exchange, s': ClientState)
    requires Exchanged(s, x, s')
    ensures StoredSize(s) <= StoredSize(s') <= MAX_TREE_SIZE
  {
    hide Exchanged, SignaturesOk, AuditorsOk, TimestampOk;
    ExchangeHead(s, x, s');
  }

  lemma StepKeepsSome(before: MonitoringData, e: Event, after: MonitoringData)
    requires Step(before, e, after) && before.ptrs != map[]
    ensures after.ptrs != map[]
  {
    hide Target, IsMaximum, RightPath, FirstOnPath;
    var from := UpdatedFrom(before, e);
    assert from.ptrs != map[];
    var p :| p in from.ptrs;
    assert Lands(p, from.ptrs[p], e.size, e.entries, after.ptrs);
  }

  lemma UpdateKeepsInTree(before: MonitoringData, size: nat, entries: map<nat, ProofStep>, after: MonitoringData)
    requires Updated(before, size, entries, after) && InTree(before, size)
    ensures InTree(after, size)
  {
    hide Target, AtOrRightAbove, IsMaximum;
    forall t | t in after.ptrs
      ensures after.pos <= t < size
    {
      var p := SourceOf(before, size, entries, after, t);
      TargetIs(p, before.ptrs[p], size, entries);
    }
  }

  lemma StepKeepsInTree(before: MonitoringData, e: Event, after: MonitoringData)
    requires Step(before, e, after) && InTree(before, e.size)
    ensures InTree(after, e.size)
  {
    hide Updated, RightPath, FirstOnPath;
    UpdateKeepsInTree(UpdatedFrom(before, e), e.size, e.entries, after);
  }

  lemma StepKeepsGood(k: seq<byte>, before: MonitoringData, e: Event, after: MonitoringData, size: nat, indexOf: seq<byte> -> seq<byte>)
    requires Step(before, e, after) && GoodData(k, before, size, indexOf) && (k != DISTINGUISHED ==> e.size == size)
    ensures GoodData(k, after, size, indexOf)
  {
    hide Step, DataOk, InTree, Dominated;
    StepFrame(before, e, after);
    StepKeeps(before, e, after);
    StepKeepsSome(before, e, after);
    if k != DISTINGUISHED { StepKeepsInTree(before, e, after); }
  }

  lemma GoodInLargerTree(k: seq<byte>, d: MonitoringData, size: nat, size': nat, indexOf: seq<byte> -> seq<byte>)
    requires GoodData(k, d, size, indexOf) && size <= size'
    ensures GoodData(k, d, size', indexOf)
  {
    hide DataOk;
  }

  /** The data a search starts from is good in the tree of that search. */
  lemma StartedGood(s: ClientState, c: Client, req: SearchRequest, res: SearchResponse, e: Evidence, v: VerifiedSearch, monitor: bool)
    requires IsKey(c.indexOf(req.searchKey)) && SearchAccepted(c, req, res, e) && Describes(v, c, req, res, e)
    requires GoodState(s, c.indexOf) && StoredSize(s) <= v.head.head.treeSize
    ensures var start := Started(DataFor(s, req.searchKey), c.config.mode, v, monitor);
            start.Some? ==> GoodData(req.searchKey, start.value, v.head.head.treeSize, c.indexOf)
  {
    hide SearchAccepted, Describes;
    DescribedFacts(c, req, res, e, v);
    if req.searchKey in s.data {
      GoodInLargerTree(req.searchKey, s.data[req.searchKey], StoredSize(s), v.head.head.treeSize, c.indexOf);
    } else {
      FreshGood(req.searchKey, MonitoringData(v.index, v.pos, map[v.id := v.version], monitor, [], v.version), v.id,
                v.version, v.head.head.treeSize, c.indexOf);
    }
  }

  lemma FreshGood(k: seq<byte>, d: MonitoringData, id: u64, version: nat, size: nat, indexOf: seq<byte> -> seq<byte>)
    requires d.index == indexOf(k) && d.ptrs == map[id := version] && d.maxObserved == version && d.pos <= id < size
    ensures GoodData(k, d, size, indexOf)
  {
    assert id in d.ptrs;
  }

  lemma ExchangeKeepsGood(s: ClientState, x: Exchange, s': ClientState)
    requires Exchanged(s, x, s') && GoodState(s, x.c.indexOf)
    ensures GoodState(s', x.c.indexOf)
  {
    hide SearchAccepted, Describes, MonitorAccepted, Step, UpdatesFrom, GoodData;
    SizesGrow(s, x, s');
    var size := StoredSize(s');
    forall k | k in s.data
      ensures GoodData(k, s.data[k], size, x.c.indexOf)
    {
      GoodInLargerTree(k, s.data[k], StoredSize(s), size, x.c.indexOf);
    }
    match x {
      case SearchDone(c, req, res, monitor, e, v, update) =>
        var start := Started(DataFor(s, req.searchKey), c.config.mode, v, monitor);
        DescribedFacts(c, req, res, e, v);
        StartedGood(s, c, req, res, e, v, monitor);
        if start.Some? {
          StepKeepsGood(req.searchKey, start.value, SearchEvent(v, monitor), update.data.value, size, c.indexOf);
        }
      case MonitorDone(c, req, res, e, update) =>
        MonitorHead(c, req, res, s.data, e);
        forall k | k in update.data
          ensures GoodData(k, update.data[k], size, c.indexOf)
        {
          var i := UpdateOf(req, e.entries, s.data, res.treeHead.value.treeHead.value.treeSize, update.data, k);
          StepKeepsGood(k, s.data[k], KeyEvent(req, e.entries, res.treeHead.value.treeHead.value.treeSize, i).value,
                        update.data[k], size, c.indexOf);
        }
    }
  }

  lemma {:induction false} RunStaysGood(states: seq<ClientState>, xs: seq<Exchange>, config: PublicConfig, check: SignatureCheck,
                                        indexOf: seq<byte> -> seq<byte>, j: nat)
    requires IsClientRun(states, xs, config, check, indexOf) && j <= |xs|
    ensures GoodState(states[j], indexOf)
    decreases j
  {
    hide Exchanged, GoodData;
    if j > 0 {
      RunStaysGood(states, xs, config, check, indexOf, j - 1);
      assert ExchangeAt(states, xs, j - 1, config, check, indexOf);
      ExchangeKeepsGood(states[j - 1], xs[j - 1], states[j]);
    }
  }

  // ---------------------------------------------------------------------------------------------
  // What is kept for a key, and since when.

  lemma StepOwns(before: MonitoringData, e: Event, after: MonitoringData)
    requires Step(before, e, after)
    ensures after.owned <==> before.owned || (e.Searched? && e.owned)
  {
    hide MovedTo, IsMaximum, RightPath, FirstOnPath;
  }

  /** A search leaves data for its key exactly if there was some, monitoring is asked for, or contacts are
  monitored anyway; no other key is touched. */
  lemma SearchStores(s: ClientState, x: Exchange, s': ClientState)
    requires Exchanged(s, x, s') && x.SearchDone?
    ensures x.req.searchKey in s'.data <==> x.req.searchKey in s.data || x.monitor || x.c.config.mode == ContactMonitoring
    ensures forall k | k != x.req.searchKey :: DataFor(s', k) == DataFor(s, k)
    ensures x.req.searchKey in s'.data ==>
              var d := s'.data[x.req.searchKey];
              && d.index == x.v.index && d.pos == x.v.pos
              && (d.owned <==> x.monitor || (x.req.searchKey in s.data && s.data[x.req.searchKey].owned))
  {
    hide SearchAccepted, Describes, Step;
    var start := Started(DataFor(s, x.req.searchKey), x.c.config.mode, x.v, x.monitor);
    if start.Some? {
      StepFrame(start.value, SearchEvent(x.v, x.monitor), x.update.data.value);
      StepOwns(start.value, SearchEvent(x.v, x.monitor), x.update.data.value);
    }
  }

  ghost predicate UpdatedFor(before: MonitoringData, size: u64, entries: map<nat, ProofStep>, after: MonitoringData) {
    Step(before, Monitored(size, entries), after)
  }

  /** Monitoring updates the keys of the request and no others: each for the size of the tree, the
  distinguished key for the size the client asked about. */
  lemma MonitorStores(s: ClientState, x: Exchange, s': ClientState, k: seq<byte>)
    requires Exchanged(s, x, s') && x.MonitorDone?
    ensures k in s'.data <==> k in s.data
    ensures k in s'.data && s'.data[k] != s.data[k] ==> exists i | 0 <= i < |x.mreq.keys| :: x.mreq.keys[i].searchKey == k
    ensures k in s'.data ==> (s'.data[k].owned <==> s.data[k].owned)
    ensures (exists i | 0 <= i < |x.mreq.keys| :: x.mreq.keys[i].searchKey == k) ==>
              && k in s.data && (k == DISTINGUISHED ==> x.mreq.consistencyLast.Some?)
              && var size: u64 := if k == DISTINGUISHED then x.mreq.consistencyLast.value else SizeOf(HeadOf(x));
                 exists entries :: UpdatedFor(s.data[k], size, entries, s'.data[k])
  {
    hide MonitorAccepted, Step, AllUpdate, MovedTo, IsMaximum;
    ExchangeHead(s, x, s');
    var n := x.mres.treeHead.value.treeHead.value.treeSize;
    if k in x.mupdate.data {
      var i := UpdateOf(x.mreq, x.me.entries, s.data, n, x.mupdate.data, k);
      StepOwns(s.data[k], KeyEvent(x.mreq, x.me.entries, n, i).value, s'.data[k]);
      assert UpdatedFor(s.data[k], if k == DISTINGUISHED then x.mreq.consistencyLast.value else SizeOf(HeadOf(x)), x.me.entries[i], s'.data[k]);
    }
  }

  /** Over every run: the client owns a key exactly if it has searched for it with monitoring asked for. */
  lemma {:induction false} OwnedSince(states: seq<ClientState>, xs: seq<Exchange>, config: PublicConfig, check: SignatureCheck,
                                      indexOf: seq<byte> -> seq<byte>, j: nat, k: seq<byte>)
    requires IsClientRun(states, xs, config, check, indexOf) && j <= |xs|
    ensures k in states[j].data && states[j].data[k].owned <==>
              exists i | 0 <= i < j :: xs[i].SearchDone? && xs[i].req.searchKey == k && xs[i].monitor
    decreases j
  {
    hide Exchanged;
    if j > 0 {
      OwnedSince(states, xs, config, check, indexOf, j - 1, k);
      assert ExchangeAt(states, xs, j - 1, config, check, indexOf);
      var x := xs[j - 1];
      if x.SearchDone? {
        SearchStores(states[j - 1], x, states[j]);
        assert k != x.req.searchKey ==> DataFor(states[j], k) == DataFor(states[j - 1], k);
      } else {
        MonitorStores(states[j - 1], x, states[j], k);
      }
    }
  }

  // ---------------------------------------------------------------------------------------------
  // Nothing accepted is forgotten.

  ghost predicate CoveredIn(s: ClientState, k: seq<byte>, pos: nat, ver: nat) {
    k in s.data && Dominated(s.data[k].ptrs, pos, ver) && ver <= s.data[k].maxObserved
  }

  lemma StepRaises(before: MonitoringData, e: Event, after: MonitoringData)
    requires Step(before, e, after) && DataOk(before)
    ensures before.maxObserved <= after.maxObserved
  {
    hide Step, DataOk, Dominated;
    StepKeeps(before, e, after);
  }

  lemma ExchangeKeepsCovered(s: ClientState, x: Exchange, s': ClientState, k: seq<byte>, pos: nat, ver: nat)
    requires Exchanged(s, x, s') && GoodState(s, x.c.indexOf) && CoveredIn(s, k, pos, ver)
    ensures CoveredIn(s', k, pos, ver)
  {
    hide SearchAccepted, Describes, MonitorAccepted, Step, UpdatesFrom, Dominated, DataOk, InTree;
    assert GoodData(k, s.data[k], StoredSize(s), x.c.indexOf);
    match x {
      case SearchDone(c, req, res, monitor, e, v, update) =>
        if k == req.searchKey && update.data.Some? {
          StepRaises(s.data[k], SearchEvent(v, monitor), update.data.value);
          StepKeepsDominated(s.data[k], SearchEvent(v, monitor), update.data.value, pos, ver);
        }
      case MonitorDone(c, req, res, e, update) =>
        MonitorHead(c, req, res, s.data, e);
        if k in update.data {
          var n := res.treeHead.value.treeHead.value.treeSize;
          var i := UpdateOf(req, e.entries, s.data, n, update.data, k);
          StepRaises(s.data[k], KeyEvent(req, e.entries, n, i).value, update.data[k]);
          StepKeepsDominated(s.data[k], KeyEvent(req, e.entries, n, i).value, update.data[k], pos, ver);
        }
    }
  }

  lemma SearchCovers(s: ClientState, x: Exchange, s': ClientState)
    requires Exchanged(s, x, s') && GoodState(s, x.c.indexOf) && x.SearchDone? && x.update.data.Some?
    ensures CoveredIn(s', x.req.searchKey, x.v.id, x.v.version)
  {
    hide SearchAccepted, Describes, Step, Dominated, GoodState, DataOk, InTree;
    SizesGrow(s, x, s');
    var start := Started(DataFor(s, x.req.searchKey), x.c.config.mode, x.v, x.monitor).value;
    StartedGood(s, x.c, x.req, x.res, x.e, x.v, x.monitor);
    StepKeeps(start, SearchEvent(x.v, x.monitor), x.update.data.value);
  }

  lemma {:induction false} StaysCovered(states: seq<ClientState>, xs: seq<Exchange>, config: PublicConfig, check: SignatureCheck,
                                        indexOf: seq<byte> -> seq<byte>, i: nat, j: nat)
    requires IsClientRun(states, xs, config, check, indexOf) && i < j <= |xs|
    requires xs[i].SearchDone? && xs[i].update.data.Some?
    ensures CoveredIn(states[j], xs[i].req.searchKey, xs[i].v.id, xs[i].v.version)
    decreases j
  {
    hide Exchanged, GoodState, CoveredIn;
    assert ExchangeAt(states, xs, j - 1, config, check, indexOf);
    RunStaysGood(states, xs, config, check, indexOf, j - 1);
    if i == j - 1 {
      SearchCovers(states[i], xs[i], states[j]);
    } else {
      StaysCovered(states, xs, config, check, indexOf, i, j - 1);
      ExchangeKeepsCovered(states[j - 1], xs[j - 1], states[j], xs[i].req.searchKey, xs[i].v.id, xs[i].v.version);
    }
  }

  /** Every version a monitored search ever returned is still covered: the log records it where it was
  found, and a current pointer at or right above that place stands at a counter the log records that is
  no smaller. */
  lemma AcceptedStaysCovered(states: seq<ClientState>, xs: seq<Exchange>, config: PublicConfig, check: SignatureCheck,
                             indexOf: seq<byte> -> seq<byte>, log: seq<Hash>, i: nat, j: nat) returns (q: nat)
    requires IsClientRun(states, xs, config, check, indexOf) && Ends(xs, log) && i < j <= |xs|
    requires xs[i].SearchDone? && xs[i].update.data.Some?
    ensures var v := xs[i].v; xs[i].req.searchKey in states[j].data && v.id < |log| && q < |log|
    ensures CounterAt(log[xs[i].v.id], xs[i].v.index, xs[i].v.pos) == Some(xs[i].v.version)
    ensures var d := states[j].data[xs[i].req.searchKey];
            && q in d.ptrs && AtOrRightAbove(q, xs[i].v.id) && d.ptrs[q] >= xs[i].v.version
            && CounterAt(log[q], d.index, d.pos) == Some(d.ptrs[q])
  {
    hide Exchanged, CounterAt, EntriesBound, AtOrRightAbove, ExchangeAt;
    EveryResponseIsBound(states, xs, config, check, indexOf, log, i);
    PointersStayBound(states, xs, config, check, indexOf, log, j);
    StaysCovered(states, xs, config, check, indexOf, i, j);
    var d := states[j].data[xs[i].req.searchKey];
    q :| q in d.ptrs && AtOrRightAbove(q, xs[i].v.id) && d.ptrs[q] >= xs[i].v.version;
    assert PointersBound(d, log);
  }

  // ---------------------------------------------------------------------------------------------
  // Updates return, and an honest log never makes them fail.

  lemma InTreeStepReturns(before: MonitoringData, e: Event)
    requires InTree(before, e.size) && before.pos < e.size && (e.Searched? ==> before.pos <= e.verPos < e.size)
    ensures StepReturns(before, e)
  {
    hide RightPath, FirstOnPath, SomeHangs, BelowRoot;
    var from := UpdatedFrom(before, e);
    InTreeReturns(from, e.size, e.entries);
  }

  lemma AcceptedIsNoSmaller(s: ClientState, c: Client, fth: FullTreeHead, root: Hash)
    requires c.last == s.last && HeadAccepted(c.config, fth, root, c.last, c.distinguished, c.now, c.check)
    ensures fth.treeHead.Some? && StoredSize(s) <= fth.treeHead.value.treeSize
  {
    hide SignaturesOk, AuditorsOk, TimestampOk;
  }

  lemma SearchHeadAccepted(c: Client, req: SearchRequest, res: SearchResponse, e: Evidence)
    requires IsKey(c.indexOf(req.searchKey)) && SearchAccepted(c, req, res, e)
    ensures HeadAccepted(c.config, res.treeHead, e.root, c.last, c.distinguished, c.now, c.check)
  {
    hide ProofHolds, Opened, HeadAccepted;
  }

  /** In a state a run has led to, a search for any key but the distinguished one always returns: the
  pointers lie in the tree last accepted, and the new tree is no smaller. */
  lemma OrdinarySearchReturns(s: ClientState, c: Client, req: SearchRequest, res: SearchResponse, e: Evidence, v: VerifiedSearch, monitor: bool)
    requires GoodState(s, c.indexOf) && c.last == s.last && req.searchKey != DISTINGUISHED
    requires IsKey(c.indexOf(req.searchKey)) && SearchAccepted(c, req, res, e) && Describes(v, c, req, res, e)
    ensures !SearchHangs(c, DataFor(s, req.searchKey), monitor, v)
  {
    hide SearchAccepted, Describes, StepReturns, GoodState, HeadAccepted, DataOk, InTree;
    SearchHeadAccepted(c, req, res, e);
    AcceptedIsNoSmaller(s, c, res.treeHead, e.root);
    DescribedHead(c, req, res, e, v);
    DescribedFacts(c, req, res, e, v);
    StartedGood(s, c, req, res, e, v, monitor);
    var start := Started(DataFor(s, req.searchKey), c.config.mode, v, monitor);
    if start.Some? && SameKey(start.value, v) { InTreeStepReturns(start.value, SearchEvent(v, monitor)); }
  }

  /** Nor does updating any key but the distinguished one after an accepted monitoring response. */
  lemma OrdinaryKeyReturns(s: ClientState, c: Client, req: MonitorRequest, res: MonitorResponse, e: MonitorEvidence, i: nat)
    requires GoodState(s, c.indexOf) && c.last == s.last && MonitorAccepted(c, req, res, s.data, e)
    requires i < |req.keys| && req.keys[i].searchKey != DISTINGUISHED
    ensures |e.entries| == |req.keys| && req.keys[i].searchKey in s.data
    ensures !KeyHangs(req, e.entries, s.data, res.treeHead.value.treeHead.value.treeSize, i)
  {
    hide MonitorHolds, HeadAccepted, StepReturns, DataOk;
    AcceptedKnown(c, req, res, s.data, e);
    AcceptedIsNoSmaller(s, c, res.treeHead.value, e.root);
    var n := res.treeHead.value.treeHead.value.treeSize;
    var d := s.data[req.keys[i].searchKey];
    assert GoodData(req.keys[i].searchKey, d, StoredSize(s), c.indexOf);
    var p :| p in d.ptrs;
    InTreeStepReturns(d, Monitored(n, e.entries[i]));
  }

  /** For the distinguished key, updated for the size right after the position found, a search returns
  exactly when every pointer is below the search root of that size. */
  lemma DistinguishedSearchReturnsIff(s: ClientState, c: Client, req: SearchRequest, res: SearchResponse, e: Evidence, v: VerifiedSearch, monitor: bool)
    requires GoodState(s, c.indexOf) && c.last == s.last && req.searchKey == DISTINGUISHED
    requires IsKey(c.indexOf(req.searchKey)) && SearchAccepted(c, req, res, e) && Describes(v, c, req, res, e)
    ensures v.size == v.id + 1
    ensures var start := Started(DataFor(s, req.searchKey), c.config.mode, v, monitor);
            start.Some? && SameKey(start.value, v) ==>
              (!SearchHangs(c, DataFor(s, req.searchKey), monitor, v) <==>
               forall p | p in UpdatedFrom(start.value, SearchEvent(v, monitor)).ptrs :: WalkReturns(p, v.pos, v.id + 1))
  {
    hide SearchAccepted, StepReturns, GoodState, HeadAccepted, InTree, UpdatedFrom, WalkReturns, StepsOf;
    SearchHeadAccepted(c, req, res, e);
    AcceptedIsNoSmaller(s, c, res.treeHead, e.root);
    DescribedHead(c, req, res, e, v);
    DescribedFacts(c, req, res, e, v);
    StartedGood(s, c, req, res, e, v, monitor);
    var start := Started(DataFor(s, req.searchKey), c.config.mode, v, monitor);
    if start.Some? && SameKey(start.value, v) {
      CheckedFromFirst(start.value, SearchEvent(v, monitor));
      StepReturnsIff(start.value, SearchEvent(v, monitor));
    }
  }

  lemma CheckedFromFirst(before: MonitoringData, e: Event)
    requires DataOk(before) && (e.Searched? ==> before.pos <= e.verPos)
    ensures forall p | p in UpdatedFrom(before, e).ptrs :: before.pos <= p
  {
    hide RightPath, FirstOnPath;
  }

  lemma BoundIsTruthful(d: MonitoringData, log: seq<Hash>, first: nat, cnt: nat -> nat)
    requires PointersBound(d, log) && KeyHistory(log, d.index, first, cnt)
    ensures Truthful(d, cnt) && (d.ptrs != map[] ==> d.pos == first)
  {
    hide Prefix.Stored, Guide.NonDecreasing;
    forall p | p in d.ptrs
      ensures d.ptrs[p] == cnt(p) && d.pos == first
    {
      assert RecordAt(log[p], d.index, if p < first then None else Some((cnt(p), first)));
    }
  }

  lemma BoundIsHonest(e: Event, index: Key, pos: nat, log: seq<Hash>, first: nat, cnt: nat -> nat)
    requires EventBound(e, index, pos, log) && KeyHistory(log, index, first, cnt)
    ensures EntriesTruthful(e.entries, cnt)
    ensures e.Searched? ==> e.version == cnt(e.verPos) && pos == first
  {
    hide Prefix.Stored, Guide.NonDecreasing;
    forall p | p in e.entries
      ensures e.entries[p].prefix.Some? && e.entries[p].prefix.value.counter == cnt(p)
    {
      assert EntryBound(p, e.entries[p], index, pos, log);
      assert RecordAt(log[p], index, if p < first then None else Some((cnt(p), first)));
    }
    if e.Searched? {
      assert RecordAt(log[e.verPos], index, if e.verPos < first then None else Some((cnt(e.verPos), first)));
    }
  }

  /** What a run has stored is bound to the log of the next accepted head. */
  lemma NextHeadBindsStored(states: seq<ClientState>, xs: seq<Exchange>, config: PublicConfig, check: SignatureCheck,
                            indexOf: seq<byte> -> seq<byte>, c: Client, fth: FullTreeHead, root: Hash, log: seq<Hash>)
    requires IsClientRun(states, xs, config, check, indexOf) && c.last == states[|xs|].last
    requires HeadAccepted(c.config, fth, root, c.last, c.distinguished, c.now, c.check)
    requires fth.treeHead.Some? && Commits(root, fth.treeHead.value.treeSize, log)
    ensures AllBound(states[|xs|], log)
  {
    hide Exchanged, SignaturesOk, AuditorsOk, TimestampOk, Commits, PointersBound, ConsistentWith;
    if xs != [] {
      assert ExchangeAt(states, xs, |xs| - 1, config, check, indexOf);
      ExchangeHead(states[|xs| - 1], xs[|xs| - 1], states[|xs|]);
      CommitsBack(fth.treeHead.value, root, HashesOf(fth.last), c.last.value, log);
      PointersStayBound(states, xs, config, check, indexOf, log, |xs|);
    }
  }

  /** An honest log never causes an error: after any run, whatever was accepted before, an accepted search
  for an ordinary key whose counters never fall in the log goes through. */
  lemma HonestSearchSucceeds(states: seq<ClientState>, xs: seq<Exchange>, config: PublicConfig, check: SignatureCheck,
                             indexOf: seq<byte> -> seq<byte>, c: Client, req: SearchRequest, res: SearchResponse,
                             e: Evidence, v: VerifiedSearch, monitor: bool, log: seq<Hash>, first: nat, cnt: nat -> nat)
    requires IsClientRun(states, xs, config, check, indexOf) && c.last == states[|xs|].last && c.indexOf == indexOf
    requires IsKey(c.indexOf(req.searchKey)) && SearchAccepted(c, req, res, e) && Describes(v, c, req, res, e)
    requires req.searchKey != DISTINGUISHED && |log| == v.head.head.treeSize && e.root == RootOf(log)
    requires KeyHistory(log, v.index, first, cnt)
    ensures !Rejects(c, DataFor(states[|xs|], req.searchKey), monitor, v)
    ensures !SearchHangs(c, DataFor(states[|xs|], req.searchKey), monitor, v)
  {
    hide SearchAccepted, Describes, ExchangeAt, HeadAccepted, RootOf, KeyHistory, PointersBound, EventBound, GoodState,
         CanStep, StepReturns, DataOk, InTree, Truthful, EntriesTruthful;
    var s := states[|xs|];
    var event := SearchEvent(v, monitor);
    var start := Started(DataFor(s, req.searchKey), c.config.mode, v, monitor);
    DescribedHead(c, req, res, e, v);
    DescribedFacts(c, req, res, e, v);
    SearchHeadAccepted(c, req, res, e);
    AcceptedIsNoSmaller(s, c, res.treeHead, e.root);
    RunStaysGood(states, xs, config, check, indexOf, |xs|);
    StartedGood(s, c, req, res, e, v, monitor);
    assert log[..|log|] == log;
    NextHeadBindsStored(states, xs, config, check, indexOf, c, res.treeHead, e.root, log);
    SearchBindsLog(c, req, res, e, v, monitor, log);
    StartedBound(DataFor(s, req.searchKey), c.config.mode, v, monitor, log);
    if start.Some? {
      BoundIsTruthful(start.value, log, first, cnt);
      BoundIsHonest(event, v.index, v.pos, log, first, cnt);
      HistoryNeverFalls(log, v.index, first, cnt);
      HonestStep(start.value, event, cnt);
    }
  }

  lemma HistoryNeverFalls(log: seq<Hash>, index: Key, first: nat, cnt: nat -> nat)
    requires KeyHistory(log, index, first, cnt)
    ensures Guide.NonDecreasing(cnt, first, |log|)
  {
  }

  /** The same for the update of an ordinary key after an accepted monitoring response. */
  lemma HonestKeySucceeds(states: seq<ClientState>, xs: seq<Exchange>, config: PublicConfig, check: SignatureCheck,
                          indexOf: seq<byte> -> seq<byte>, c: Client, req: MonitorRequest, res: MonitorResponse,
                          e: MonitorEvidence, i: nat, log: seq<Hash>, first: nat, cnt: nat -> nat)
    requires IsClientRun(states, xs, config, check, indexOf) && c.last == states[|xs|].last && c.indexOf == indexOf
    requires MonitorAccepted(c, req, res, states[|xs|].data, e) && i < |req.keys| && req.keys[i].searchKey != DISTINGUISHED
    requires |log| == res.treeHead.value.treeHead.value.treeSize && e.root == RootOf(log)
    requires req.keys[i].searchKey in states[|xs|].data
    requires KeyHistory(log, states[|xs|].data[req.keys[i].searchKey].index, first, cnt)
    ensures |e.entries| == |req.keys| && KeyUpdates(req, e.entries, states[|xs|].data, |log|, i)
  {
    hide MonitorHolds, ExchangeAt, HeadAccepted, RootOf, KeyHistory, PointersBound, EntriesBound, CanStep, StepReturns, DataOk,
         Truthful, EntriesTruthful;
    var s, key := states[|xs|], req.keys[i].searchKey;
    var d, n := s.data[key], res.treeHead.value.treeHead.value.treeSize;
    AcceptedKnown(c, req, res, s.data, e);
    AcceptedIsNoSmaller(s, c, res.treeHead.value, e.root);
    RunStaysGood(states, xs, config, check, indexOf, |xs|);
    assert GoodData(key, d, StoredSize(s), c.indexOf);
    assert log[..|log|] == log;
    NextHeadBindsStored(states, xs, config, check, indexOf, c, res.treeHead.value, e.root, log);
    assert PointersBound(d, log);
    MonitorBindsLog(c, req, res, s.data, e, i, log);
    var event := Monitored(n, e.entries[i]);
    BoundIsTruthful(d, log, first, cnt);
    BoundIsHonest(event, d.index, d.pos, log, first, cnt);
    HistoryNeverFalls(log, d.index, first, cnt);
    var p :| p in d.ptrs;
    InLargerTree(d, StoredSize(s), n);
    HonestStep(d, event, cnt);
  }
}
