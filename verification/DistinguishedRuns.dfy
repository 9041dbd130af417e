/** The distinguished key with an honest server: when a search after monitoring never returns.

It is updated for the size right after the position found.  While its version stands, that is the first
position of the key, although monitoring has moved the pointer on. */
module DistinguishedRuns {
  import opened Wrappers
  import opened Bits
  import opened Geometry
  import opened Implicit
  import opened Paths
  import opened Hashes
  import opened Merkle
  import opened Prefix
  import opened Heads
  import opened Monitor
  import opened MonitorRuns
  import opened Search
  import opened MonitorProofs
  import opened ClientUpdates
  import opened ClientRuns
  import opened HonestServer
  import opened HonestRuns

  function Always(ver: nat): nat -> nat {
    (i: nat) => ver
  }

  /** From its first position on the key has this one version. */
  ghost predicate Stands(log: seq<Hash>, index: Key, first: nat, ver: nat) {
    first < |log| && KeyHistory(log, index, first, Always(ver))
  }

  // ---------------------------------------------------------------------------------------------
  // One pointer.

  /** Bubbling up a path that is answered throughout with one version ends at its last position. */
  lemma {:induction false} BubbleAll(path: seq<nat>, ver: nat, entries: map<nat, ProofStep>, best: Option<(nat, nat)>)
    requires forall k | 0 <= k < |path| ::
               path[k] in entries && entries[path[k]].prefix.Some? && entries[path[k]].prefix.value.counter == ver
    ensures Bubble(path, ver, entries, best) == Ok(if path == [] then best else Some((path[|path| - 1], ver)))
    decreases |path|
  {
    if path != [] { BubbleAll(path[1..], ver, entries, Some((path[0], ver))); }
  }

  lemma MovesToEnd(first: nat, ver: nat, n: nat, entries: map<nat, ProofStep>)
    requires first < n && EntriesTruthful(entries, Always(ver)) && forall p :: p in entries <==> p in FullPath(first, n)
    ensures Target(first, ver, n, entries) == Ok((PathEnd(first, n), ver))
  {
    hide RightPath, FullPath;
    var path := RightPath(first, n);
    FullPathIs(first, n);
    assert forall k | 0 <= k < |path| :: path[k] == FullPath(first, n)[k] && path[k] in FullPath(first, n);
    BubbleAll(path, ver, entries, None);
  }

  lemma OnePointerMoves(p: u64, ver: nat, size: nat, entries: map<nat, ProofStep>, t: nat, moved: map<u64, nat>)
    requires MovedTo(map[p := ver], size, entries, moved) && Target(p, ver, size, entries) == Ok((t, ver))
    ensures t in moved && moved == map[t := ver]
  {
    hide Target;
    var ptrs: map<u64, nat> := map[p := ver];
    assert p in ptrs && Lands(p, ptrs[p], size, entries, moved);
    forall q | q in moved
      ensures q == t
    {
      assert ComesFrom(q, ptrs, size, entries);
    }
  }

  /** Nothing lies on the path of a position at or past the end of the tree but one. */
  lemma NoPathFromLast(p: nat, n: nat)
    requires n <= p + 1
    ensures RightPath(p, n) == []
  {
    hide First;
  }

  lemma StaysFrom(p: nat, ver: nat, size: nat, entries: map<nat, ProofStep>)
    requires size <= p + 1
    ensures Target(p, ver, size, entries) == Ok((p, ver))
  {
    hide RightPath;
    NoPathFromLast(p, size);
  }

  /** Where monitoring takes the pointer, and when it takes it anywhere. */
  lemma PathEndIs(first: nat, n: nat)
    requires first < n
    ensures first <= PathEnd(first, n) < n
    ensures first + Span(first) < n ==> PathEnd(first, n) >= first + Span(first)
    ensures first + Span(first) >= n ==> PathEnd(first, n) == first
  {
    hide First, Span;
    RightPathIncreases(first, n);
    var path := RightPath(first, n);
    if path != [] { assert path[0] == first + Span(first) && (|path| == 1 || path[0] < path[|path| - 1]); }
  }

  /** The walk from there meets the search root of the first size exactly if the pointer never moved. */
  lemma WalkFromEnd(first: nat, n: nat)
    requires first < n
    ensures WalkReturns(PathEnd(first, n), first, first + 1) <==> first + Span(first) >= n
  {
    hide First, Span, SearchRoot, PathEnd;
    PathEndIs(first, n);
    RootIsPeak(first, first + 1);
    assert SearchRoot(first, first + 1) == first;
    FirstRightAncestor(first);
    assert Within(first, first);
  }

  // ---------------------------------------------------------------------------------------------
  // One event.

  /** The data holds this one pointer. */
  ghost predicate PointsAt(d: MonitoringData, index: Key, first: nat, p: u64, ver: nat) {
    d.index == index && d.pos == first && d.ptrs == map[p := ver]
  }

  /** What a search for the key is, while its version stands. */
  function SearchOf(first: u64, ver: nat, monitor: bool, entries: map<nat, ProofStep>): Event
    requires first + 1 < TWO_64
  {
    Searched(first + 1, first, ver, monitor, entries)
  }

  lemma SearchStartsFrom(d: MonitoringData, index: Key, first: u64, p: u64, ver: nat, monitor: bool, entries: map<nat, ProofStep>)
    requires first + 1 < TWO_64 && PointsAt(d, index, first, p, ver) && first <= p
    ensures Checked(d, first + 1, d.index, d.pos, first, ver, monitor).Ok?
    ensures UpdatedFrom(d, SearchOf(first, ver, monitor, entries)).ptrs == map[p := ver, first := ver]
  {
    hide RightPath;
    NoPathFromLast(first, first + 1);
  }

  /** Such a search never fails, and returns exactly if the walk from the pointer does. */
  lemma SearchReturnsIff(d: MonitoringData, index: Key, first: u64, p: u64, ver: nat, monitor: bool, entries: map<nat, ProofStep>)
    requires first + 1 < TWO_64 && PointsAt(d, index, first, p, ver) && first <= p
    ensures var e := SearchOf(first, ver, monitor, entries);
            CanStep(d, e) && (StepReturns(d, e) <==> WalkReturns(p, first, first + 1))
  {
    hide Checked, Target, WalkReturns, StepReturns, RightPath, Span;
    var e := SearchOf(first, ver, monitor, entries);
    SearchStartsFrom(d, index, first, p, ver, monitor, entries);
    var ptrs := UpdatedFrom(d, e).ptrs;
    StaysFrom(first, ver, first + 1, entries);
    StaysFrom(p, ver, first + 1, entries);
    assert forall q | q in ptrs :: ptrs[q] == ver && (q == p || q == first);
    StepReturnsIff(d, e);
    assert p in ptrs && first in ptrs;
    WalkFromFirst(first);
  }

  lemma WalkFromFirst(first: nat)
    ensures WalkReturns(first, first, first + 1)
  {
    hide PathEnd, Span;
    WalkFromEnd(first, first + 1);
    PathEndIs(first, first + 1);
  }

  /** A pointer at the first position stays there. */
  lemma SearchKeepsFirst(d: MonitoringData, index: Key, first: u64, ver: nat, monitor: bool, entries: map<nat, ProofStep>, after: MonitoringData)
    requires first + 1 < TWO_64 && PointsAt(d, index, first, first, ver) && Step(d, SearchOf(first, ver, monitor, entries), after)
    ensures PointsAt(after, index, first, first, ver)
  {
    hide Target, RightPath, FirstOnPath, IsMaximum, MovedTo;
    StepFrame(d, SearchOf(first, ver, monitor, entries), after);
    SearchStartsFrom(d, index, first, first, ver, monitor, entries);
    var from: map<u64, nat> := map[first := ver, first := ver];
    assert from == map[first := ver];
    StaysFrom(first, ver, first + 1, entries);
    OnePointerMoves(first, ver, first + 1, entries, first, after.ptrs);
  }

  /** Monitoring takes the pointer to the end of its path. */
  lemma MonitorMoves(d: MonitoringData, index: Key, first: u64, ver: nat, n: u64, entries: map<nat, ProofStep>, after: MonitoringData)
    requires first < n && PointsAt(d, index, first, first, ver) && Step(d, Monitored(n, entries), after)
    requires EntriesTruthful(entries, Always(ver)) && forall p :: p in entries <==> p in FullPath(first, n)
    ensures PathEnd(first, n) < TWO_64 && PointsAt(after, index, first, PathEnd(first, n), ver)
  {
    hide Target, RightPath, FullPath, EntriesTruthful, IsMaximum, MovedTo, PathEnd, Span;
    MovesToEnd(first, ver, n, entries);
    PathEndIs(first, n);
    OnePointerMoves(first, ver, n, entries, PathEnd(first, n), after.ptrs);
  }

  // ---------------------------------------------------------------------------------------------
  // Whole operations.

  const NEWEST := SearchRequest(DISTINGUISHED, None)

  function Watch(first: u64, n: u64): MonitorRequest {
    MonitorRequest([MonitorKey(DISTINGUISHED, first)], Some(n))
  }

  /** The server's side: a log in which the key stands, the value on record for it, and the head. */
  ghost predicate Standing(c: Client, log: seq<Hash>, first: u64, ver: nat, record: Record, head: TreeHead,
                           auditors: seq<FullAuditorTreeHead>)
  {
    && IsKey(c.indexOf(DISTINGUISHED)) && Presents(c, log, head, auditors)
    && Stands(log, c.indexOf(DISTINGUISHED), first, ver) && KeptAt(log[first], DISTINGUISHED, record)
  }

  lemma StandingFacts(c: Client, log: seq<Hash>, first: u64, ver: nat, record: Record, head: TreeHead, auditors: seq<FullAuditorTreeHead>)
    requires Standing(c, log, first, ver, record, head, auditors)
    ensures IsKey(c.indexOf(DISTINGUISHED)) && first < |log| <= MAX_TREE_SIZE
  {
  }

  lemma StandingKept(log: seq<Hash>, first: nat, ver: nat, record: Record)
    requires first < |log| && KeptAt(log[first], DISTINGUISHED, record)
    ensures Kept(log, DISTINGUISHED, first, Always(ver), (p: nat) => record)
  {
    hide KeptAt;
  }

  lemma StandingFound(c: Client, res: SearchResponse, e: Evidence, v: VerifiedSearch, log: seq<Hash>, first: u64, ver: nat)
    requires IsKey(c.indexOf(DISTINGUISHED)) && SearchAccepted(c, NEWEST, res, e) && Describes(v, c, NEWEST, res, e)
    requires Stands(log, c.indexOf(DISTINGUISHED), first, ver)
    requires res.treeHead.treeHead.value.treeSize == |log| && e.root == RootOf(log)
    ensures v.index == c.indexOf(DISTINGUISHED) && v.pos == first && v.head.head.treeSize == |log|
    ensures first + 1 < TWO_64 && SearchEvent(v, true) == SearchOf(first, ver, true, v.steps)
  {
    hide SearchAccepted, RootOf, KeyHistory, StepsOf;
    FoundWhere(c, NEWEST, res, e, v, log, first, Always(ver));
    DescribedHead(c, NEWEST, res, e, v);
    DescribedFacts(c, NEWEST, res, e, v);
    LeftmostOnce(v.id, first, ver, first, Always(ver));
  }

  lemma StandingOutcome(c: Client, data: Option<MonitoringData>, v: VerifiedSearch, first: u64, p: u64, ver: nat)
    requires first + 1 < TWO_64 && SearchEvent(v, true) == SearchOf(first, ver, true, v.steps) && v.pos == first <= p
    requires if data == None then p == first else PointsAt(data.value, v.index, first, p, ver)
    ensures !Rejects(c, data, true, v) && (SearchHangs(c, data, true, v) <==> !WalkReturns(p, first, first + 1))
    ensures var start := Started(data, c.config.mode, v, true);
            start.Some? && PointsAt(start.value, v.index, first, p, ver)
  {
    hide CanStep, StepReturns, WalkReturns;
    var start := Started(data, c.config.mode, v, true).value;
    SearchReturnsIff(start, v.index, first, p, ver, true, v.steps);
  }

  /** Search for the newest version, with nothing stored or one pointer: the client accepts the answer,
  and the operation returns exactly if the walk from the pointer does. */
  method SearchStanding(c: Client, data: Option<MonitoringData>, log: seq<Hash>, first: u64, ver: nat, record: Record,
                        head: TreeHead, auditors: seq<FullAuditorTreeHead>, ghost p: u64)
    returns (res: SearchResponse, r: Option<VerifyResult<SearchUpdate>>, ghost e: Evidence, ghost v: VerifiedSearch)
    requires Standing(c, log, first, ver, record, head, auditors) && first <= p
    requires if data == None then p == first else PointsAt(data.value, c.indexOf(DISTINGUISHED), first, p, ver)
    ensures SearchAccepted(c, NEWEST, res, e)
    ensures r == None <==> !WalkReturns(p, first, first + 1)
    ensures r.Some? ==> r.value.Ok? && SearchTaken(c, NEWEST, res, data, true, e, v, r.value.value)
    ensures r.Some? && p == first ==>
              && r.value.value.head == LastTreeHead(head, RootOf(log)) && r.value.value.data.Some?
              && PointsAt(r.value.value.data.value, c.indexOf(DISTINGUISHED), first, first, ver)
  {
    hide SearchAccepted, Describes, Vouched, Earlier, KeyHistory, KeptAt, Kept, RootOf, Rejects, SearchHangs, CommitPanics,
         Step, WalkReturns, SearchEvent;
    StandingKept(log, first, ver, record);
    ghost var mine;
    res, mine := AnswerSearchRequest(c, NEWEST, log, first, Always(ver), (p: nat) => record, head, auditors);
    AcceptedDoesNotPanic(c, NEWEST, res, mine);
    r, e, v := VerifySearch(c, NEWEST, res, data, true);
    if SearchAccepted(c, NEWEST, res, e) && Describes(v, c, NEWEST, res, e) {
      AcceptedOnce(c, NEWEST, res, mine, e);
      StandingFound(c, res, e, v, log, first, ver);
      DescribedHead(c, NEWEST, res, e, v);
      StandingOutcome(c, data, v, first, p, ver);
      if r.Some? && r.value.Ok? && p == first {
        SearchKeepsFirst(Started(data, c.config.mode, v, true).value, v.index, first, ver, true, v.steps, r.value.value.data.value);
      }
    }
  }

  lemma StandingEntries(c: Client, res: MonitorResponse, data: KeyData, e: MonitorEvidence, log: seq<Hash>, first: u64, n: u64, ver: nat)
    requires MonitorAccepted(c, Watch(first, n), res, data, e) && |log| == res.treeHead.value.treeHead.value.treeSize == n
    requires e.root == RootOf(log) && DISTINGUISHED in data
    requires PointsAt(data[DISTINGUISHED], data[DISTINGUISHED].index, first, first, ver) && Stands(log, data[DISTINGUISHED].index, first, ver)
    ensures |e.entries| == 1 && EntriesTruthful(e.entries[0], Always(ver))
    ensures forall p :: p in e.entries[0] <==> p in FullPath(first, n)
    ensures CanStep(data[DISTINGUISHED], Monitored(n, e.entries[0])) && StepReturns(data[DISTINGUISHED], Monitored(n, e.entries[0]))
  {
    hide Gathered, RootFor, HeadAccepted, RootOf, KeyHistory, CanStep, StepReturns, FullPath, CounterAt, EntryBound;
    var d, req := data[DISTINGUISHED], Watch(first, n);
    AcceptedKnown(c, req, res, data, e);
    MonitorIsSound(req, res, data, e, log, 0);
    var event := Monitored(n, e.entries[0]);
    BoundIsHonest(event, d.index, d.pos, log, first, Always(ver));
    HistoryNeverFalls(log, d.index, first, Always(ver));
    HonestStep(d, event, Always(ver));
  }

  /** Monitor the key: the client accepts the answer, and the pointer moves to the end of its path. */
  method MonitorStanding(c: Client, data: KeyData, log: seq<Hash>, first: u64, ver: nat, record: Record, head: TreeHead,
                         auditors: seq<FullAuditorTreeHead>)
    returns (res: MonitorResponse, update: MonitorUpdate, ghost e: MonitorEvidence)
    requires Standing(c, log, first, ver, record, head, auditors) && c.distinguished.Some?
    requires DISTINGUISHED in data && PointsAt(data[DISTINGUISHED], c.indexOf(DISTINGUISHED), first, first, ver)
    ensures MonitorTaken(c, Watch(first, |log|), res, data, e, update) && update.head == LastTreeHead(head, RootOf(log))
    ensures DISTINGUISHED in update.data && PathEnd(first, |log|) < TWO_64
    ensures PointsAt(update.data[DISTINGUISHED], c.indexOf(DISTINGUISHED), first, PathEnd(first, |log|), ver)
  {
    hide MonitorHolds, HeadAccepted, Vouched, Earlier, KeyHistory, KeptAt, RootOf, Step, CanStep, StepReturns, MonitorStuck,
         FullPath, PathEnd, EntriesTruthful;
    var n: u64 := |log|;
    var req := Watch(first, n);
    HistoryRecords(log, c.indexOf(DISTINGUISHED), first, Always(ver));
    ghost var mine;
    res, mine := AnswerMonitorRequest(c, req, data, log, head, auditors);
    LargeTreeReturns(req, res, data);
    var r;
    r, e := VerifyMonitor(c, req, res, data);
    if MonitorAccepted(c, req, res, data, e) {
      MonitorRootOnce(c, req, res, data, mine, e);
      StandingEntries(c, res, data, e, log, first, n, ver);
    }
    assert r.Some? && r.value.Ok?;
    update := r.value.value;
    assert req.keys[0].searchKey in update.data;
    ghost var i := UpdateOf(req, e.entries, data, n, update.data, DISTINGUISHED);
    MonitorMoves(data[DISTINGUISHED], c.indexOf(DISTINGUISHED), first, ver, n, e.entries[0], update.data[DISTINGUISHED]);
  }

  // ---------------------------------------------------------------------------------------------
  // The run.

  lemma AuditorsSame(config: PublicConfig, f: FullTreeHead, g: FullTreeHead, head: TreeHead, root: Hash, now: int, check: SignatureCheck)
    requires f.auditorHeads == g.auditorHeads && AuditorsOk(config, f, head, root, now, check)
    ensures AuditorsOk(config, g, head, root, now, check)
  {
    hide AuditorOk;
    if config.mode.ThirdPartyAuditing? {
      forall k | 0 <= k < |config.mode.keys|
        ensures KeyAudited(config, config.mode.keys[k], g, head, root, now, check)
      {
        assert KeyAudited(config, config.mode.keys[k], f, head, root, now, check);
      }
    }
  }

  /** Having stored this very head, the client can be shown it again. */
  lemma StandingAgain(c: Client, log: seq<Hash>, first: u64, ver: nat, record: Record, head: TreeHead, auditors: seq<FullAuditorTreeHead>)
    requires Standing(c, log, first, ver, record, head, auditors)
    ensures Standing(c.(last := Some(LastTreeHead(head, RootOf(log)))), log, first, ver, record, head, auditors)
  {
    hide RootOf, AuditorsOk, SignaturesOk, TimestampOk, KeyHistory, KeptAt, ConsistencyFor;
    var c' := c.(last := Some(LastTreeHead(head, RootOf(log))));
    assert log[..|log|] == log;
    AuditorsSame(c.config, HeadFor(c, log, head, auditors), HeadFor(c', log, head, auditors), head, RootOf(log), c.now, c.check);
  }

  /** The exact condition, over a run of this client with an honest server: search for the key, monitor it,
  search again.  All three answers are accepted, and the third operation returns if and only if the
  monitored tree holds no position above the first one. */
  method DistinguishedSearchAgain(c: Client, log: seq<Hash>, first: u64, ver: nat, record: Record, head: TreeHead,
                                  auditors: seq<FullAuditorTreeHead>)
    returns (r: Option<VerifyResult<SearchUpdate>>, ghost states: seq<ClientState>, ghost xs: seq<Exchange>,
             ghost again: Client, ghost res: SearchResponse, ghost e: Evidence)
    requires c.last == None && c.distinguished.Some? && Standing(c, log, first, ver, record, head, auditors)
    ensures IsClientRun(states, xs, c.config, c.check, c.indexOf) && |xs| == 2
    ensures xs[0].SearchDone? && xs[0].req == NEWEST && xs[1].MonitorDone? && xs[1].mreq == Watch(first, |log|)
    ensures again == c.(last := states[2].last) && SearchAccepted(again, NEWEST, res, e)
    ensures r.Some? <==> first + Span(first) >= |log|
    ensures r.Some? ==> r.value.Ok?
  {
    hide Standing, SearchAccepted, SearchTaken, MonitorTaken, PointsAt, RootOf, PathEnd, Span, WalkReturns, Started;
    StandingFacts(c, log, first, ver, record, head, auditors);
    WalkFromFirst(first);
    var found, done; ghost var e1, v1;
    found, done, e1, v1 := SearchStanding(c, None, log, first, ver, record, head, auditors, first);
    var stored := done.value.value;
    var data: KeyData := map[][DISTINGUISHED := stored.data.value];
    ghost var s0, s1 := ClientState(None, map[]), ClientState(Some(stored.head), data);
    ghost var x1 := SearchDone(c, NEWEST, found, true, e1, v1, stored);
    assert Exchanged(s0, x1, s1);
    RunExtends(c, [s0], [], x1, s1);

    StandingAgain(c, log, first, ver, record, head, auditors);
    var c' := c.(last := Some(stored.head));
    var watched, update; ghost var e2;
    watched, update, e2 := MonitorStanding(c', data, log, first, ver, record, head, auditors);
    ghost var s2, x2 := ClientState(Some(update.head), data + update.data), MonitorDone(c', Watch(first, |log|), watched, e2, update);
    assert Exchanged(s1, x2, s2);
    RunExtends(c', [s0] + [s1], [] + [x1], x2, s2);
    states, xs := [s0] + [s1] + [s2], [] + [x1] + [x2];

    again := c';
    PathEndIs(first, |log|);
    WalkFromEnd(first, |log|);
    var found'; ghost var v;
    found', r, e, v := SearchStanding(c', Some(update.data[DISTINGUISHED]), log, first, ver, record, head, auditors, PathEnd(first, |log|));
    res := found';
  }

  // ---------------------------------------------------------------------------------------------
  // Such a run exists.

  lemma SameEntriesStand(leaf: Hash, index: Key, ver: nat, n: nat)
    requires n >= 1 && RecordAt(leaf, index, Some((ver, 0)))
    ensures Stands(seq(n, _ => leaf), index, 0, ver)
  {
    hide Prefix.Stored;
  }

  /** In contact monitoring nothing has to be signed. */
  lemma FirstPresents(c: Client, log: seq<Hash>, head: TreeHead)
    requires 1 <= |log| == head.treeSize <= MAX_TREE_SIZE && head.timestamp == c.now
    requires c.config.mode == ContactMonitoring && c.last == None
    requires c.distinguished == Some(LastTreeHead(head, RootOf(log)))
    ensures Presents(c, log, head, [])
  {
    hide RootOf, ConsistencyFor;
    assert log[..|log|] == log;
  }

  /** For every index and signature check: the key has version 7 at all five positions of a log, the
  client searches, monitors the tree of five entries and searches again, and the last search, although
  its answer is accepted, does not return. */
  method DistinguishedSearchDoesNotReturn(index: Key, check: SignatureCheck)
    returns (r: Option<VerifyResult<SearchUpdate>>, ghost c: Client, ghost states: seq<ClientState>, ghost xs: seq<Exchange>,
             ghost res: SearchResponse, ghost e: Evidence)
    ensures r == None
    ensures IsClientRun(states, xs, c.config, c.check, c.indexOf) && |xs| == 2 && xs[0].SearchDone? && xs[1].MonitorDone?
    ensures IsKey(c.indexOf(DISTINGUISHED)) && c.last == states[2].last && SearchAccepted(c, NEWEST, res, e)
  {
    hide IsClientRun, SearchAccepted, RootOf, HashAt, EvaluateSpec, Prefix.Stored, Presents, Stands, Marshal, SiblingsBelow;
    var siblings := seq(DEPTH, _ => Some(Opaque(0)));
    var prefix := PrefixProof(7, siblings);
    var root := Evaluate(index, 0, prefix);
    assert AllHashes(siblings);
    EvaluatedSome(index, 0, prefix);
    PrefixIsBinding(index, 0, prefix, root.value);
    var record := Record(seq(OPENING_LENGTH, _ => 0), []);
    var leaf := LogLeaf(root.value, Commitment(record.opening, DISTINGUISHED, Marshal(record.value)));
    var log, head := seq(5, _ => leaf), TreeHead(5, 0, []);
    SameEntriesStand(leaf, index, 7, 5);
    var c0 := Client(PublicConfig(ContactMonitoring, 0), None, Some(LastTreeHead(head, RootOf(log))), 0, check, (k: seq<byte>) => index);
    FirstPresents(c0, log, head);
    r, states, xs, c, res, e := DistinguishedSearchAgain(c0, log, 0, 7, record, head, []);
    assert Span(0) == 1;
  }

  lemma EvaluatedSome(index: Key, pos: nat, prefix: PrefixProof)
    requires |prefix.proof| == DEPTH && AllHashes(prefix.proof)
    ensures EvaluateSpec(index, pos, prefix).Some?
  {
  }
}
