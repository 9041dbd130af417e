/** What monitoring data guarantees over whole runs of searches and monitoring. */
module MonitorRuns {
  import opened Wrappers
  import opened Bits
  import opened Geometry
  import opened Paths
  import opened Monitor
  import Guide

  /** Some pointer at pos, or at an ancestor right of it, has a version at least ver. */
  ghost predicate Dominated(ptrs: map<nat, nat>, pos: nat, ver: nat) {
    exists q :: q in ptrs && AtOrRightAbove(q, pos) && ptrs[q] >= ver
  }

  /** Pointers lie in the key's part of the log and no version exceeds the greatest one observed. */
  ghost predicate DataOk(data: MonitoringData) {
    forall p | p in data.ptrs :: data.pos <= p && data.ptrs[p] <= data.maxObserved
  }

  /** The greatest version known; on good data it is the greatest one observed. */
  method GreatestVersion(data: MonitoringData) returns (m: nat)
    ensures m >= data.maxObserved && forall p | p in data.ptrs :: data.ptrs[p] <= m
    ensures m == data.maxObserved || exists p :: p in data.ptrs && data.ptrs[p] == m
    ensures DataOk(data) ==> m == data.maxObserved
  {
    m := data.maxObserved;
    var remaining := data.ptrs.Keys;
    while remaining != {}
      invariant remaining <= data.ptrs.Keys && m >= data.maxObserved
      invariant forall p | p in data.ptrs && p !in remaining :: data.ptrs[p] <= m
      invariant m == data.maxObserved || exists p :: p in data.ptrs && data.ptrs[p] == m
      decreases |remaining|
    {
      var p :| p in remaining;
      if data.ptrs[p] > m { m := data.ptrs[p]; }
      remaining := remaining - {p};
    }
  }

  // ---------------------------------------------------------------------------------------------
  // One transition.

  lemma {:induction false} FirstOnPathIs(path: seq<nat>, ptrs: map<nat, nat>)
    ensures FirstOnPath(path, ptrs).Some? ==> exists q :: q in path && q in ptrs && ptrs[q] == FirstOnPath(path, ptrs).value
  {
    if path != [] {
      if path[0] in ptrs {
        assert path[0] in path;
      } else {
        FirstOnPathIs(path[1..], ptrs);
        if FirstOnPath(path, ptrs).Some? {
          var q :| q in path[1..] && q in ptrs && ptrs[q] == FirstOnPath(path, ptrs).value;
          assert q in path;
        }
      }
    }
  }

  /** An accepted search result is dominated, and nothing dominated before is lost. */
  lemma CheckedDominates(data: MonitoringData, size: nat, verPos: u64, version: nat, owned: bool)
    requires Checked(data, size, data.index, data.pos, verPos, version, owned).Ok?
    ensures var after := Checked(data, size, data.index, data.pos, verPos, version, owned).value;
            && Dominated(after.ptrs, verPos, version)
            && (forall p | p in data.ptrs :: p in after.ptrs && after.ptrs[p] == data.ptrs[p])
            && data.maxObserved <= after.maxObserved && version <= after.maxObserved
            && (DataOk(data) && data.pos <= verPos ==> DataOk(after))
  {
    hide RightPath, First, FirstOnPath, AtOrRightAbove;
    var after := Checked(data, size, data.index, data.pos, verPos, version, owned).value;
    AtSelf(verPos);
    if verPos in after.ptrs {
      assert after.ptrs[verPos] == version;
    } else {
      FirstOnPathIs(RightPath(verPos, size), data.ptrs);
      var q :| q in RightPath(verPos, size) && q in data.ptrs
               && data.ptrs[q] == FirstOnPath(RightPath(verPos, size), data.ptrs).value;
      OnPathAbove(q, verPos, size);
    }
  }

  lemma AtSelf(pos: nat)
    ensures AtOrRightAbove(pos, pos)
  {
  }

  lemma OnPathAbove(q: nat, pos: nat, size: nat)
    requires q in RightPath(pos, size)
    ensures AtOrRightAbove(q, pos) && q < size
  {
    hide RightPath, First;
    RightPathIs(pos, size, q);
  }

  /** An update loses nothing: what was dominated stays dominated. */
  lemma UpdateDominates(data: MonitoringData, size: nat, entries: map<nat, ProofStep>, after: MonitoringData, pos: nat, ver: nat)
    requires Updated(data, size, entries, after) && Dominated(data.ptrs, pos, ver)
    ensures Dominated(after.ptrs, pos, ver)
  {
    hide Target, AtOrRightAbove, IsMaximum;
    var q :| q in data.ptrs && AtOrRightAbove(q, pos) && data.ptrs[q] >= ver;
    assert Lands(q, data.ptrs[q], size, entries, after.ptrs);
    TargetIs(q, data.ptrs[q], size, entries);
    var t := Target(q, data.ptrs[q], size, entries).value;
    AtOrRightAboveTransitive(t.0, q, pos);
  }

  /** An update keeps every pointer bounded by the greatest version observed. */
  lemma UpdateKeepsOk(data: MonitoringData, size: nat, entries: map<nat, ProofStep>, after: MonitoringData)
    requires Updated(data, size, entries, after) && DataOk(data)
    ensures DataOk(after) && data.maxObserved <= after.maxObserved
  {
    hide Target, AtOrRightAbove;
    forall t | t in after.ptrs
      ensures after.pos <= t && after.ptrs[t] <= after.maxObserved
    {
      var p := SourceOf(data, size, entries, after, t);
      TargetIs(p, data.ptrs[p], size, entries);
      AboveIsRight(t, p);
    }
  }

  lemma AboveIsRight(q: nat, pos: nat)
    requires AtOrRightAbove(q, pos)
    ensures pos <= q
  {
  }

  lemma SourceOf(data: MonitoringData, size: nat, entries: map<nat, ProofStep>, after: MonitoringData, t: nat) returns (p: nat)
    requires Updated(data, size, entries, after) && t in after.ptrs
    ensures p in data.ptrs && Target(p, data.ptrs[p], size, entries) == Ok((t, after.ptrs[t]))
  {
    hide Target, IsMaximum;
    assert ComesFrom(t, data.ptrs, size, entries);
    p :| Reaches(p, t, data.ptrs, size, entries);
    assert Lands(p, data.ptrs[p], size, entries, after.ptrs);
  }

  // ---------------------------------------------------------------------------------------------
  // Runs.

  datatype Event =
    | Searched(size: u64, verPos: u64, version: nat, owned: bool, entries: map<nat, ProofStep>)
    | Monitored(size: u64, entries: map<nat, ProofStep>)

  /** One accepted search or monitor response takes the data from before to after. */
  ghost predicate Step(before: MonitoringData, e: Event, after: MonitoringData) {
    match e
    case Searched(size, verPos, version, owned, entries) =>
      && before.pos <= verPos < size
      && Checked(before, size, before.index, before.pos, verPos, version, owned).Ok?
      && Updated(Checked(before, size, before.index, before.pos, verPos, version, owned).value, size, entries, after)
    case Monitored(size, entries) => Updated(before, size, entries, after)
  }

  ghost predicate IsHistory(states: seq<MonitoringData>, events: seq<Event>) {
    && |states| == |events| + 1
    && forall i | 0 <= i < |events| :: Step(states[i], events[i], states[i + 1])
  }

  lemma StepKeeps(before: MonitoringData, e: Event, after: MonitoringData)
    requires Step(before, e, after) && DataOk(before)
    ensures DataOk(after) && before.maxObserved <= after.maxObserved
    ensures after.pos == before.pos && after.index == before.index
    ensures e.Searched? ==> Dominated(after.ptrs, e.verPos, e.version) && e.version <= after.maxObserved
  {
    hide Updated, Checked, DataOk, Dominated;
    StepFrame(before, e, after);
    match e {
      case Searched(size, verPos, version, owned, entries) =>
        var mid := Checked(before, size, before.index, before.pos, verPos, version, owned).value;
        CheckedDominates(before, size, verPos, version, owned);
        UpdateKeepsOk(mid, size, entries, after);
        UpdateDominates(mid, size, entries, after, verPos, version);
      case Monitored(size, entries) =>
        UpdateKeepsOk(before, size, entries, after);
    }
  }

  lemma StepFrame(before: MonitoringData, e: Event, after: MonitoringData)
    requires Step(before, e, after)
    ensures after.pos == before.pos && after.index == before.index
  {
    hide MovedTo, IsMaximum, RightPath, FirstOnPath;
  }

  lemma StepKeepsDominated(before: MonitoringData, e: Event, after: MonitoringData, pos: nat, ver: nat)
    requires Step(before, e, after) && Dominated(before.ptrs, pos, ver)
    ensures Dominated(after.ptrs, pos, ver)
  {
    hide Updated, Checked, AtOrRightAbove;
    match e {
      case Searched(size, verPos, version, owned, entries) =>
        var mid := Checked(before, size, before.index, before.pos, verPos, version, owned).value;
        CheckedDominates(before, size, verPos, version, owned);
        UpdateDominates(mid, size, entries, after, pos, ver);
      case Monitored(size, entries) =>
        UpdateDominates(before, size, entries, after, pos, ver);
    }
  }

  /** Starting from good data, the data stays good and the greatest version never falls. */
  lemma {:induction false} HistoryKeeps(states: seq<MonitoringData>, events: seq<Event>, i: nat, j: nat)
    requires IsHistory(states, events) && DataOk(states[0]) && i <= j < |states|
    ensures DataOk(states[j]) && states[i].maxObserved <= states[j].maxObserved
    ensures states[j].pos == states[0].pos && states[j].index == states[0].index
    decreases j
  {
    hide Step, DataOk;
    if j > 0 {
      if i < j { HistoryKeeps(states, events, i, j - 1); } else { HistoryKeeps(states, events, i - 1, j - 1); }
      assert Step(states[j - 1], events[j - 1], states[j]);
      StepKeeps(states[j - 1], events[j - 1], states[j]);
    }
  }

  /** Every position and version ever accepted by a search stays dominated by a current pointer. */
  lemma {:induction false} HistoryDominates(states: seq<MonitoringData>, events: seq<Event>, i: nat, j: nat)
    requires IsHistory(states, events) && DataOk(states[0]) && i < j < |states| && events[i].Searched?
    ensures Dominated(states[j].ptrs, events[i].verPos, events[i].version)
    ensures events[i].version <= states[j].maxObserved
    decreases j
  {
    hide Step, DataOk, Dominated;
    HistoryKeeps(states, events, i, i);
    HistoryKeeps(states, events, i + 1, j);
    assert Step(states[j - 1], events[j - 1], states[j]) && Step(states[i], events[i], states[i + 1]);
    StepKeeps(states[i], events[i], states[i + 1]);
    if i + 1 < j {
      HistoryDominates(states, events, i, j - 1);
      StepKeepsDominated(states[j - 1], events[j - 1], states[j], events[i].verPos, events[i].version);
    }
  }

  // ---------------------------------------------------------------------------------------------
  // An honest log never causes an error.

  ghost predicate Truthful(data: MonitoringData, c: nat -> nat) {
    forall p | p in data.ptrs :: data.ptrs[p] == c(p)
  }

  ghost predicate EntriesTruthful(entries: map<nat, ProofStep>, c: nat -> nat) {
    forall p | p in entries :: entries[p].prefix.Some? && entries[p].prefix.value.counter == c(p)
  }

  /** The pointers lie in the key's part of a tree of this size. */
  ghost predicate InTree(data: MonitoringData, size: nat) {
    forall p | p in data.ptrs :: data.pos <= p < size
  }

  /** Such pointers can be walked up from: an update for that size returns. */
  lemma InTreeReturns(data: MonitoringData, size: nat, entries: map<nat, ProofStep>)
    requires InTree(data, size)
    ensures Reachable(data, size) && (data.pos < size ==> !SomeHangs(data.ptrs, data.pos, size, entries))
  {
    hide Hangs, BelowRoot;
    forall p | p in data.ptrs
      ensures WalkReturns(p, data.pos, size) && !Hangs(p, data.ptrs[p], data.pos, size, entries)
    {
      WindowBelowRoot(p, data.pos, size);
      HangsIff(p, data.ptrs[p], data.pos, size, entries);
    }
  }

  lemma HonestSearchAccepted(data: MonitoringData, size: nat, verPos: u64, version: nat, owned: bool, c: nat -> nat)
    requires Truthful(data, c) && Guide.NonDecreasing(c, data.pos, size) && data.pos <= verPos < size && version == c(verPos)
    ensures Checked(data, size, data.index, data.pos, verPos, version, owned).Ok?
    ensures var after := Checked(data, size, data.index, data.pos, verPos, version, owned).value;
            Truthful(after, c) && after.pos == data.pos && (InTree(data, size) ==> InTree(after, size))
  {
    hide RightPath, First, FirstOnPath, AtOrRightAbove;
    var path := RightPath(verPos, size);
    FirstOnPathIs(path, data.ptrs);
    if FirstOnPath(path, data.ptrs).Some? {
      var q :| q in path && q in data.ptrs && data.ptrs[q] == FirstOnPath(path, data.ptrs).value;
      OnPathAbove(q, verPos, size);
      AboveIsRight(q, verPos);
      assert c(verPos) <= c(q);
    }
  }

  lemma {:induction false} HonestBubble(path: seq<nat>, ver: nat, entries: map<nat, ProofStep>, best: Option<(nat, nat)>, c: nat -> nat)
    requires EntriesTruthful(entries, c) && forall q | q in path :: ver <= c(q)
    requires best.Some? ==> best.value.1 == c(best.value.0)
    ensures var r := Bubble(path, ver, entries, best);
            r.Ok? && (r.value.Some? ==> r.value.value.1 == c(r.value.value.0))
  {
    if path != [] && path[0] in entries {
      assert path[0] in path;
      HonestBubble(path[1..], ver, entries, Some((path[0], entries[path[0]].prefix.value.counter)), c);
    }
  }

  lemma HonestTarget(p: nat, data: MonitoringData, size: nat, entries: map<nat, ProofStep>, c: nat -> nat)
    requires p in data.ptrs && data.ptrs[p] == c(p) && data.pos <= p < size
    requires Guide.NonDecreasing(c, data.pos, size) && EntriesTruthful(entries, c)
    ensures Target(p, data.ptrs[p], size, entries).Ok?
    ensures var t := Target(p, data.ptrs[p], size, entries).value; t.1 == c(t.0)
  {
    hide RightPath, First, Bubble;
    forall q | q in RightPath(p, size)
      ensures c(p) <= c(q)
    {
      OnPathAbove(q, p, size);
      assert c(p) <= c(q);
    }
    HonestBubble(RightPath(p, size), data.ptrs[p], entries, None, c);
  }

  /** With counters that never fall, every update goes through, and leaves the data truthful and in the
  tree. */
  lemma HonestUpdateAccepted(data: MonitoringData, size: nat, entries: map<nat, ProofStep>, c: nat -> nat)
    requires Truthful(data, c) && EntriesTruthful(entries, c) && Guide.NonDecreasing(c, data.pos, size)
    requires InTree(data, size)
    ensures CanUpdate(data.ptrs, size, entries)
    ensures forall after | Updated(data, size, entries, after) :: Truthful(after, c) && InTree(after, size)
  {
    hide Target, IsMaximum, AtOrRightAbove;
    forall p | p in data.ptrs
      ensures Target(p, data.ptrs[p], size, entries).Ok?
      ensures var t := Target(p, data.ptrs[p], size, entries).value; t.1 == c(t.0)
    {
      HonestTarget(p, data, size, entries, c);
    }
    forall after | Updated(data, size, entries, after)
      ensures Truthful(after, c) && InTree(after, size)
    {
      forall t | t in after.ptrs
        ensures after.ptrs[t] == c(t) && after.pos <= t < size
      {
        var p := SourceOf(data, size, entries, after, t);
        TargetIs(p, data.ptrs[p], size, entries);
      }
    }
  }

  // ---------------------------------------------------------------------------------------------
  // Honest runs.

  /** The step can be taken. */
  ghost predicate CanStep(before: MonitoringData, e: Event) {
    match e
    case Searched(size, verPos, version, owned, entries) =>
      && Checked(before, size, before.index, before.pos, verPos, version, owned).Ok?
      && CanUpdate(Checked(before, size, before.index, before.pos, verPos, version, owned).value.ptrs, size, entries)
    case Monitored(size, entries) => CanUpdate(before.ptrs, size, entries)
  }

  /** The data the update of a step starts from. */
  function UpdatedFrom(before: MonitoringData, e: Event): MonitoringData {
    match e
    case Searched(size, verPos, version, owned, _) =>
      (match Checked(before, size, before.index, before.pos, verPos, version, owned)
       case Ok(data) => data
       case Err(_) => before)
    case Monitored(_, _) => before
  }

  /** The update of the step comes to an end. */
  ghost predicate StepReturns(before: MonitoringData, e: Event) {
    !SomeHangs(UpdatedFrom(before, e).ptrs, before.pos, e.size, e.entries)
  }

  /** What is shown is true, in a tree whose counters for the key never fall. */
  ghost predicate HonestEvent(e: Event, pos: nat, c: nat -> nat) {
    && pos < e.size && EntriesTruthful(e.entries, c) && Guide.NonDecreasing(c, pos, e.size)
    && (e.Searched? ==> pos <= e.verPos < e.size && e.version == c(e.verPos))
  }

  lemma HonestStep(before: MonitoringData, e: Event, c: nat -> nat)
    requires Truthful(before, c) && InTree(before, e.size) && HonestEvent(e, before.pos, c)
    ensures CanStep(before, e) && StepReturns(before, e)
    ensures forall after | Step(before, e, after) :: Truthful(after, c) && InTree(after, e.size) && after.pos == before.pos
  {
    hide CanUpdate, Updated, Checked, SomeHangs, Truthful, InTree, EntriesTruthful, Guide.NonDecreasing;
    match e {
      case Searched(size, verPos, version, owned, entries) =>
        HonestSearchAccepted(before, size, verPos, version, owned, c);
        var mid := Checked(before, size, before.index, before.pos, verPos, version, owned).value;
        HonestUpdateAccepted(mid, size, entries, c);
        InTreeReturns(mid, size, entries);
      case Monitored(size, entries) =>
        HonestUpdateAccepted(before, size, entries, c);
        InTreeReturns(before, size, entries);
    }
    forall after | Step(before, e, after)
      ensures after.pos == before.pos
    {
      StepFrame(before, e, after);
    }
  }

  /** The sizes of the events never fall. */
  ghost predicate SizesRise(events: seq<Event>) {
    forall i, j | 0 <= i <= j < |events| :: events[i].size <= events[j].size
  }

  ghost predicate AllHonest(events: seq<Event>, pos: nat, c: nat -> nat) {
    forall i | 0 <= i < |events| :: HonestEvent(events[i], pos, c)
  }

  lemma InLargerTree(data: MonitoringData, size: nat, size': nat)
    requires InTree(data, size) && size <= size'
    ensures InTree(data, size')
  {
  }

  lemma MovedExists(ptrs: map<u64, nat>, size: u64, entries: map<nat, ProofStep>) returns (moved: map<u64, nat>)
    requires CanUpdate(ptrs, size, entries)
    ensures MovedTo(ptrs, size, entries, moved)
  {
    hide Target, Partial, MovedTo, Agree, AtOrRightAbove;
    moved := map[];
    var visited, remaining: set<nat> := {}, ptrs.Keys;
    PartialNone(ptrs, size, entries);
    while remaining != {}
      invariant visited + remaining == ptrs.Keys && Partial(visited, moved, ptrs, size, entries)
      decreases |remaining|
    {
      var p :| p in remaining;
      var t := Target(p, ptrs[p], size, entries).value;
      TargetIs(p, ptrs[p], size, entries);
      if t.0 in moved && moved[t.0] != t.1 { PartialClash(visited, moved, ptrs, size, entries, p, t); }
      PartialAdd(visited, moved, ptrs, size, entries, p, t);
      moved := moved[t.0 := t.1];
      visited, remaining := visited + {p}, remaining - {p};
    }
    assert visited == ptrs.Keys;
    PartialDone(moved, ptrs, size, entries);
  }

  lemma MaximumExists(before: nat, entries: map<nat, ProofStep>) returns (m: nat)
    ensures IsMaximum(m, before, entries)
  {
    m := before;
    var remaining := entries.Keys;
    while remaining != {}
      invariant remaining <= entries.Keys && m >= before
      invariant forall p | p in entries && p !in remaining :: entries[p].prefix.Some? ==> entries[p].prefix.value.counter <= m
      invariant m == before || exists p :: p in entries && entries[p].prefix.Some? && entries[p].prefix.value.counter == m
      decreases |remaining|
    {
      var p :| p in remaining;
      if entries[p].prefix.Some? && entries[p].prefix.value.counter > m { m := entries[p].prefix.value.counter; }
      remaining := remaining - {p};
    }
  }

  lemma StepExists(before: MonitoringData, e: Event) returns (after: MonitoringData)
    requires CanStep(before, e) && (e.Searched? ==> before.pos <= e.verPos < e.size)
    ensures Step(before, e, after)
  {
    hide CanUpdate, MovedTo, IsMaximum, Checked;
    var from := UpdatedFrom(before, e);
    var moved := MovedExists(from.ptrs, e.size, e.entries);
    var m := MaximumExists(from.maxObserved, e.entries);
    after := from.(ptrs := moved, maxObserved := m);
  }

  /** The beginning of a history. */
  ghost predicate IsBeginning(states: seq<MonitoringData>, events: seq<Event>) {
    && 1 <= |states| <= |events| + 1
    && forall i | 0 <= i < |states| - 1 :: Step(states[i], events[i], states[i + 1])
  }

  /** An honest log never causes an error over a whole run: as long as what is shown is true, counters
  never fall and sizes never fall, every step of every run can be taken and returns. */
  lemma {:induction false} HonestRunNeverFails(states: seq<MonitoringData>, events: seq<Event>, c: nat -> nat, i: nat)
    requires IsBeginning(states, events) && i < |states| && i < |events|
    requires Truthful(states[0], c) && InTree(states[0], events[0].size)
    requires AllHonest(events, states[0].pos, c) && SizesRise(events)
    ensures Truthful(states[i], c) && InTree(states[i], events[i].size) && states[i].pos == states[0].pos
    ensures CanStep(states[i], events[i]) && StepReturns(states[i], events[i])
    decreases i
  {
    hide Step, Truthful, InTree, HonestEvent, CanStep, StepReturns;
    if i > 0 {
      HonestRunNeverFails(states, events, c, i - 1);
      assert HonestEvent(events[i - 1], states[0].pos, c);
      HonestStep(states[i - 1], events[i - 1], c);
      assert Step(states[i - 1], events[i - 1], states[i]);
      InLargerTree(states[i], events[i - 1].size, events[i].size);
    }
    assert HonestEvent(events[i], states[0].pos, c);
    HonestStep(states[i], events[i], c);
  }

  /** And so the run goes through to its end. */
  lemma {:induction false} HonestRunExists(start: MonitoringData, events: seq<Event>, c: nat -> nat, k: nat) returns (states: seq<MonitoringData>)
    requires k <= |events| && Truthful(start, c) && (events != [] ==> InTree(start, events[0].size))
    requires AllHonest(events, start.pos, c) && SizesRise(events)
    ensures |states| == k + 1 && states[0] == start && IsBeginning(states, events)
    ensures k == |events| ==> IsHistory(states, events)
    decreases k
  {
    hide Step, Truthful, InTree, CanStep, StepReturns;
    if k == 0 {
      states := [start];
    } else {
      var before := HonestRunExists(start, events, c, k - 1);
      HonestRunNeverFails(before, events, c, k - 1);
      assert HonestEvent(events[k - 1], start.pos, c);
      var after := StepExists(before[k - 1], events[k - 1]);
      states := before + [after];
      forall i | 0 <= i < |states| - 1
        ensures Step(states[i], events[i], states[i + 1])
      {
        if i < k - 1 { assert Step(before[i], events[i], before[i + 1]); }
      }
    }
  }

  // ---------------------------------------------------------------------------------------------
  // Where the run does not go on: a key whose sizes fall.

  /** With pointers in the key's part of the log, a step returns exactly when every pointer it updates is
  below the search root of the step's size. */
  lemma StepReturnsIff(before: MonitoringData, e: Event)
    requires forall p | p in UpdatedFrom(before, e).ptrs :: before.pos <= p
    ensures StepReturns(before, e) <==>
              forall p | p in UpdatedFrom(before, e).ptrs :: WalkReturns(p, before.pos, e.size)
  {
    hide Hangs, WalkReturns, UpdatedFrom;
    var ptrs := UpdatedFrom(before, e).ptrs;
    forall p | p in ptrs
      ensures Hangs(p, ptrs[p], before.pos, e.size, e.entries) <==> !WalkReturns(p, before.pos, e.size)
    {
      HangsIff(p, ptrs[p], before.pos, e.size, e.entries);
    }
  }
}
