/** The monitoring data a client keeps for a key, and how searches and monitoring update it. */
module Monitor {
  import opened Wrappers
  import opened Bits
  import opened Geometry
  import opened BoundedTree
  import opened Implicit
  import opened Paths
  import opened Hashes
  import opened Prefix
  import opened Heads

  datatype ProofStep = ProofStep(prefix: Option<PrefixProof>, commitment: Option<Hash>)

  datatype MonitoringData = MonitoringData(
    index: Key,
    pos: u64,
    ptrs: map<u64, nat>,
    owned: bool,
    searchKey: seq<byte>,
    maxObserved: nat)

  // ---------------------------------------------------------------------------------------------
  // Moving one pointer.

  /** Bubble up a path while the response has entries for it; counters must not fall below ver. */
  function Bubble(path: seq<nat>, ver: nat, entries: map<nat, ProofStep>, best: Option<(nat, nat)>)
    : VerifyResult<Option<(nat, nat)>>
  {
    if path == [] || path[0] !in entries then Ok(best)
    else if entries[path[0]].prefix == None then Err(RequiredFieldMissing)
    else
      var counter := entries[path[0]].prefix.value.counter;
      if counter < ver then Err(VerificationFailed)
      else Bubble(path[1..], ver, entries, Some((path[0], counter)))
  }

  /** Where the pointer (pos, ver) ends up. */
  function Target(pos: nat, ver: nat, size: nat, entries: map<nat, ProofStep>): VerifyResult<(nat, nat)> {
    match Bubble(RightPath(pos, size), ver, entries, None)
    case Err(e) => Err(e)
    case Ok(None) => Ok((pos, ver))
    case Ok(Some(p)) => Ok(p)
  }

  /** The response has good entries for the whole path, so that bubbling up does not stop on it. */
  predicate Answered(path: seq<nat>, ver: nat, entries: map<nat, ProofStep>) {
    path == []
    || (path[0] in entries && entries[path[0]].prefix.Some? && entries[path[0]].prefix.value.counter >= ver
        && Answered(path[1..], ver, entries))
  }

  /** The search for a new place for the pointer does not return: there is no search root, or the walk
  never meets it and nothing stops it before. */
  ghost predicate Hangs(pos: nat, ver: nat, first: nat, size: nat, entries: map<nat, ProofStep>) {
    first >= size || (!BelowRoot(pos, first, size) && Answered(RightPath(pos, size), ver, entries))
  }

  lemma NoParentNoPath(c: nat, n: nat)
    requires !HasParent(c, n)
    ensures RightPath(c, n) == []
  {
    hide First, Level, RightPath, HasParent;
    RightPathStep(c, n);
    FirstRightAncestor(c);
    if Hi(c) + 1 < n { ParentMeansBelowTop(c, Hi(c) + 1, n); }
  }

  /** Going up one step consumes the first position of the path, if it is one. */
  lemma BubbleUp(c: nat, pos: nat, ver: nat, size: nat, entries: map<nat, ProofStep>, best: Option<(nat, nat)>)
    requires HasParent(c, size) && Within(pos, c)
    ensures var p := ParentIn(c, size); var path, above := RightPath(c, size), RightPath(p, size);
            && Within(pos, p) && p < size
            && (p <= pos ==> path == above)
            && (p > pos ==>
                  && (p !in entries ==> Bubble(path, ver, entries, best) == Ok(best) && !Answered(path, ver, entries))
                  && (p in entries && entries[p].prefix == None ==>
                        Bubble(path, ver, entries, best) == Err(RequiredFieldMissing) && !Answered(path, ver, entries))
                  && (p in entries && entries[p].prefix.Some? && entries[p].prefix.value.counter < ver ==>
                        Bubble(path, ver, entries, best) == Err(VerificationFailed) && !Answered(path, ver, entries))
                  && (p in entries && entries[p].prefix.Some? && entries[p].prefix.value.counter >= ver ==>
                        && Bubble(path, ver, entries, best)
                           == Bubble(above, ver, entries, Some((p, entries[p].prefix.value.counter)))
                        && Answered(path, ver, entries) == Answered(above, ver, entries)))
  {
    hide RightPath, First, Level, ParentIn, TopOf;
    WalkStep(c, pos, size);
    var p := ParentIn(c, size);
    if p > pos {
      assert RightPath(c, size)[1..] == RightPath(p, size);
    }
  }

  /** Bubble up the monitoring path of a pointer, asking for the next position only when the last one was
  answered.  There is no outcome exactly when the search hangs. */
  method FindUpdatedMapping(pos: u64, ver: nat, first: u64, size: u64, entries: map<nat, ProofStep>)
    returns (r: Option<VerifyResult<Option<(nat, nat)>>>)
    requires size <= MAX_TREE_SIZE
    ensures r == if Hangs(pos, ver, first, size, entries) then None
                 else Some(Bubble(RightPath(pos, size), ver, entries, None))
  {
    hide RightPath, BelowRoot, MonitoringPath, First, Level, SearchRoot, ParentIn, HasParent, Bubble, Answered;
    var root :- Root(first, size);
    WalkStart(pos, first, size);
    var updated: Option<(nat, nat)> := None;
    ghost var path := RightPath(pos, size);
    var c: u64 := pos;
    while c != root
      invariant Within(pos, c) && (BelowRoot(pos, first, size) ==> Within(c, root))
      invariant Bubble(RightPath(c, size), ver, entries, updated) == Bubble(path, ver, entries, None)
      invariant Answered(RightPath(c, size), ver, entries) == Answered(path, ver, entries)
      decreases 64 - Level(c)
    {
      WalkGoesOn(c, first, size);
      var p := Parent(c, size);
      if p == None {
        NoParentNoPath(c, size);
        NothingLeft(ver, entries, updated);
        return None;
      }
      WalkStep(c, pos, size);
      LowUnderSize(p.value, size);
      BubbleUp(c, pos, ver, size, entries, updated);
      c := p.value;
      if c > pos {
        if c !in entries {
          return Some(Ok(updated));
        }
        if entries[c].prefix == None {
          return Some(Err(RequiredFieldMissing));
        }
        if entries[c].prefix.value.counter < ver {
          return Some(Err(VerificationFailed));
        }
        updated := Some((c, entries[c].prefix.value.counter));
      }
    }
    WalkEnds(pos, first, size);
    NothingLeft(ver, entries, updated);
    return Some(Ok(updated));
  }

  lemma NothingLeft(ver: nat, entries: map<nat, ProofStep>, best: Option<(nat, nat)>)
    ensures Bubble([], ver, entries, best) == Ok(best) && Answered([], ver, entries)
  {
  }

  /** A pointer of the key's part of the log hangs exactly when it is not below the search root of the
  size, which takes a size at or below the pointer. */
  lemma HangsIff(pos: nat, ver: nat, first: nat, size: nat, entries: map<nat, ProofStep>)
    requires first <= pos
    ensures Hangs(pos, ver, first, size, entries) <==> !WalkReturns(pos, first, size)
    ensures pos < size ==> !Hangs(pos, ver, first, size, entries)
  {
    hide RightPath, BelowRoot;
    if pos < size {
      WindowBelowRoot(pos, first, size);
    } else {
      NoPathPastEnd(pos, size);
    }
  }

  lemma NoPathPastEnd(pos: nat, size: nat)
    requires size <= pos
    ensures RightPath(pos, size) == []
  {
    hide First, Span;
  }

  /** q is pos or one of its ancestors to the right. */
  predicate AtOrRightAbove(q: nat, pos: nat) {
    q == pos || (q > pos && Within(pos, q))
  }

  lemma AtOrRightAboveTransitive(r: nat, q: nat, pos: nat)
    requires AtOrRightAbove(r, q) && AtOrRightAbove(q, pos)
    ensures AtOrRightAbove(r, pos)
  {
    hide First;
    if r != q && q != pos { WithinTransitive(pos, q, r); }
  }

  lemma {:induction false} BubbleIs(path: seq<nat>, ver: nat, entries: map<nat, ProofStep>, best: Option<(nat, nat)>)
    ensures var r := Bubble(path, ver, entries, best);
            r.Ok? && r.value != best ==>
              && r.value.Some? && r.value.value.0 in path && r.value.value.0 in entries
              && entries[r.value.value.0].prefix.Some?
              && entries[r.value.value.0].prefix.value.counter == r.value.value.1 >= ver
  {
    if path != [] && path[0] in entries && entries[path[0]].prefix.Some? && entries[path[0]].prefix.value.counter >= ver {
      var counter := entries[path[0]].prefix.value.counter;
      BubbleIs(path[1..], ver, entries, Some((path[0], counter)));
    }
  }

  /** A pointer stays, or moves to a right ancestor with the counter reported there; its version never falls. */
  lemma TargetIs(pos: nat, ver: nat, size: nat, entries: map<nat, ProofStep>)
    ensures var t := Target(pos, ver, size, entries);
            t.Ok? ==>
              && AtOrRightAbove(t.value.0, pos) && t.value.1 >= ver
              && (t.value == (pos, ver)
                  || (t.value.0 in entries && pos < t.value.0 < size && entries[t.value.0].prefix.Some?
                      && entries[t.value.0].prefix.value.counter == t.value.1))
  {
    hide RightPath, First;
    BubbleIs(RightPath(pos, size), ver, entries, None);
    var t := Target(pos, ver, size, entries);
    if t.Ok? && t.value.0 in RightPath(pos, size) { RightPathIs(pos, size, t.value.0); }
  }

  // ---------------------------------------------------------------------------------------------
  // Moving all pointers.

  /** All pointers can move, and pointers that meet agree on the version. */
  ghost predicate CanUpdate(ptrs: map<nat, nat>, size: nat, entries: map<nat, ProofStep>) {
    && (forall p | p in ptrs :: Target(p, ptrs[p], size, entries).Ok?)
    && (forall p, q | p in ptrs && q in ptrs :: Agree(p, q, ptrs, size, entries))
  }

  ghost predicate Agree(p: nat, q: nat, ptrs: map<nat, nat>, size: nat, entries: map<nat, ProofStep>)
    requires p in ptrs && q in ptrs
  {
    var a, b := Target(p, ptrs[p], size, entries), Target(q, ptrs[q], size, entries);
    a.Ok? && b.Ok? && a.value.0 == b.value.0 ==> a.value.1 == b.value.1
  }

  /** The pointers after the move: exactly the targets of the pointers before. */
  ghost predicate MovedTo(ptrs: map<nat, nat>, size: nat, entries: map<nat, ProofStep>, moved: map<nat, nat>) {
    && (forall p | p in ptrs :: Lands(p, ptrs[p], size, entries, moved))
    && (forall t | t in moved :: ComesFrom(t, ptrs, size, entries))
  }

  ghost predicate Lands(p: nat, ver: nat, size: nat, entries: map<nat, ProofStep>, moved: map<nat, nat>) {
    var t := Target(p, ver, size, entries);
    t.Ok? && t.value.0 in moved && moved[t.value.0] == t.value.1
  }

  ghost predicate Reaches(p: nat, t: nat, ptrs: map<nat, nat>, size: nat, entries: map<nat, ProofStep>) {
    p in ptrs && Target(p, ptrs[p], size, entries).Ok? && Target(p, ptrs[p], size, entries).value.0 == t
  }

  ghost predicate ComesFrom(t: nat, ptrs: map<nat, nat>, size: nat, entries: map<nat, ProofStep>) {
    exists p :: Reaches(p, t, ptrs, size, entries)
  }

  /** The result does not depend on the order in which the pointers are visited. */
  lemma MoveIsUnique(ptrs: map<nat, nat>, size: nat, entries: map<nat, ProofStep>, a: map<nat, nat>, b: map<nat, nat>)
    requires MovedTo(ptrs, size, entries, a) && MovedTo(ptrs, size, entries, b)
    ensures a == b
  {
    hide Target;
    forall t | t in a
      ensures t in b && a[t] == b[t]
    {
      assert ComesFrom(t, ptrs, size, entries);
      var p :| Reaches(p, t, ptrs, size, entries);
      assert Lands(p, ptrs[p], size, entries, a) && Lands(p, ptrs[p], size, entries, b);
    }
    forall t | t in b
      ensures t in a
    {
      assert ComesFrom(t, ptrs, size, entries);
      var p :| Reaches(p, t, ptrs, size, entries);
      assert Lands(p, ptrs[p], size, entries, a);
    }
  }

  method MovePointer(pos: u64, ver: nat, first: u64, size: u64, entries: map<nat, ProofStep>)
    returns (r: Option<VerifyResult<(u64, nat)>>)
    requires size <= MAX_TREE_SIZE
    ensures r.Some? <==> !Hangs(pos, ver, first, size, entries)
    ensures r.Some? ==> r.value == Target(pos, ver, size, entries)
  {
    hide Bubble, RightPath, Hangs, First;
    var found :- FindUpdatedMapping(pos, ver, first, size, entries);
    if found.Err? {
      return Some(Err(found.error));
    }
    BubbleIs(RightPath(pos, size), ver, entries, None);
    RightPathIncreases(pos, size);
    return Some(Ok(if found.value == None then (pos, ver) else found.value.value));
  }

  /** The pointers visited so far have moved, and nothing else is in the new map. */
  ghost predicate Partial(visited: set<nat>, out: map<nat, nat>, ptrs: map<nat, nat>, size: nat, entries: map<nat, ProofStep>) {
    && (forall p | p in visited :: p in ptrs && Lands(p, ptrs[p], size, entries, out))
    && (forall t | t in out :: Sourced(t, visited, ptrs, size, entries))
  }

  ghost predicate Sourced(t: nat, visited: set<nat>, ptrs: map<nat, nat>, size: nat, entries: map<nat, ProofStep>) {
    exists p :: p in visited && Reaches(p, t, ptrs, size, entries)
  }

  lemma PartialAdd(visited: set<nat>, out: map<nat, nat>, ptrs: map<nat, nat>, size: nat, entries: map<nat, ProofStep>,
                   p: nat, t: (nat, nat))
    requires Partial(visited, out, ptrs, size, entries) && p in ptrs
    requires Target(p, ptrs[p], size, entries) == Ok(t) && (t.0 in out ==> out[t.0] == t.1)
    ensures Partial(visited + {p}, out[t.0 := t.1], ptrs, size, entries)
  {
    hide Target;
    var v, o := visited + {p}, out[t.0 := t.1];
    forall q | q in v
      ensures q in ptrs && Lands(q, ptrs[q], size, entries, o)
    {
      if q in visited { assert Lands(q, ptrs[q], size, entries, out); }
    }
    forall s | s in o
      ensures Sourced(s, v, ptrs, size, entries)
    {
      if s == t.0 {
        assert p in v && Reaches(p, s, ptrs, size, entries);
      } else {
        assert Sourced(s, visited, ptrs, size, entries);
        var q :| q in visited && Reaches(q, s, ptrs, size, entries);
        assert q in v;
      }
    }
  }

  lemma PartialClash(visited: set<nat>, out: map<nat, nat>, ptrs: map<nat, nat>, size: nat, entries: map<nat, ProofStep>,
                     p: nat, t: (nat, nat))
    requires Partial(visited, out, ptrs, size, entries) && p in ptrs
    requires Target(p, ptrs[p], size, entries) == Ok(t) && t.0 in out && out[t.0] != t.1
    ensures !CanUpdate(ptrs, size, entries)
  {
    hide Target;
    assert Sourced(t.0, visited, ptrs, size, entries);
    var q :| q in visited && Reaches(q, t.0, ptrs, size, entries);
    assert Lands(q, ptrs[q], size, entries, out);
    assert !Agree(p, q, ptrs, size, entries);
  }

  lemma PartialDone(out: map<nat, nat>, ptrs: map<nat, nat>, size: nat, entries: map<nat, ProofStep>)
    requires Partial(ptrs.Keys, out, ptrs, size, entries)
    ensures CanUpdate(ptrs, size, entries) && MovedTo(ptrs, size, entries, out)
  {
    hide Target;
    forall p, q | p in ptrs && q in ptrs
      ensures Agree(p, q, ptrs, size, entries)
    {
      assert Lands(p, ptrs[p], size, entries, out) && Lands(q, ptrs[q], size, entries, out);
    }
    forall p | p in ptrs
      ensures Target(p, ptrs[p], size, entries).Ok?
    {
      assert Lands(p, ptrs[p], size, entries, out);
    }
    forall t | t in out
      ensures ComesFrom(t, ptrs, size, entries)
    {
      assert Sourced(t, ptrs.Keys, ptrs, size, entries);
      var p :| p in ptrs.Keys && Reaches(p, t, ptrs, size, entries);
    }
  }

  /** Some pointer's search hangs. */
  ghost predicate SomeHangs(ptrs: map<u64, nat>, first: nat, size: nat, entries: map<nat, ProofStep>) {
    exists p :: p in ptrs && Hangs(p, ptrs[p], first, size, entries)
  }

  /** Visit the pointers in some order, moving each and insisting that those that meet agree.  It succeeds
  exactly when none hangs and all can move; whether a run with a hanging pointer and an error elsewhere
  reports the error depends on the order. */
  method MovePointers(ptrs: map<u64, nat>, first: u64, size: u64, entries: map<nat, ProofStep>)
    returns (r: Option<VerifyResult<map<u64, nat>>>)
    requires size <= MAX_TREE_SIZE
    ensures r == None ==> SomeHangs(ptrs, first, size, entries)
    ensures r.Some? && r.value.Ok? <==> !SomeHangs(ptrs, first, size, entries) && CanUpdate(ptrs, size, entries)
    ensures r.Some? && r.value.Ok? ==> MovedTo(ptrs, size, entries, r.value.value)
    ensures r.Some? && r.value.Err? ==> !CanUpdate(ptrs, size, entries)
  {
    hide Target, Hangs, Partial, MovedTo, Agree;
    var out: map<u64, nat> := map[];
    var remaining := ptrs.Keys;
    ghost var visited: set<nat> := {};
    PartialNone(ptrs, size, entries);
    while remaining != {}
      invariant visited + remaining == ptrs.Keys
      invariant forall p | p in visited :: p in ptrs && !Hangs(p, ptrs[p], first, size, entries)
      invariant Partial(visited, out, ptrs, size, entries)
      decreases |remaining|
    {
      var p :| p in remaining;
      var t := MovePointer(p, ptrs[p], first, size, entries);
      if t == None {
        return None;
      }
      if t.value.Err? {
        return Some(Err(t.value.error));
      }
      var (at, ver) := t.value.value;
      if at in out && out[at] != ver {
        PartialClash(visited, out, ptrs, size, entries, p, (at, ver));
        return Some(Err(VerificationFailed));
      }
      PartialAdd(visited, out, ptrs, size, entries, p, (at, ver));
      out := out[at := ver];
      visited, remaining := visited + {p}, remaining - {p};
    }
    assert visited == ptrs.Keys;
    PartialDone(out, ptrs, size, entries);
    return Some(Ok(out));
  }

  lemma PartialNone(ptrs: map<nat, nat>, size: nat, entries: map<nat, ProofStep>)
    ensures Partial({}, map[], ptrs, size, entries)
  {
  }

  // ---------------------------------------------------------------------------------------------
  // The greatest counter seen.

  /** m is the greatest of before and the counters reported by the entries. */
  ghost predicate IsMaximum(m: nat, before: nat, entries: map<nat, ProofStep>) {
    && m >= before
    && (forall p | p in entries :: entries[p].prefix.Some? ==> entries[p].prefix.value.counter <= m)
    && (m == before || exists p :: p in entries && entries[p].prefix.Some? && entries[p].prefix.value.counter == m)
  }

  method GreatestCounter(before: nat, entries: map<nat, ProofStep>) returns (m: nat)
    ensures IsMaximum(m, before, entries)
  {
    m := before;
    var remaining := entries.Keys;
    while remaining != {}
      invariant remaining <= entries.Keys && m >= before
      invariant forall p | p in entries && p !in remaining :: entries[p].prefix.Some? ==> entries[p].prefix.value.counter <= m
      invariant m == before || exists p :: p in entries && entries[p].prefix.Some? && entries[p].prefix.value.counter == m
      decreases |remaining|
    {
      var p :| p in remaining;
      if entries[p].prefix.Some? && entries[p].prefix.value.counter > m {
        m := entries[p].prefix.value.counter;
      }
      remaining := remaining - {p};
    }
  }

  lemma MaximumIsUnique(a: nat, b: nat, before: nat, entries: map<nat, ProofStep>)
    requires IsMaximum(a, before, entries) && IsMaximum(b, before, entries)
    ensures a == b
  {
  }

  // ---------------------------------------------------------------------------------------------
  // The two transitions as functions and relations on the data.

  /** The version stored at the first node of the path that has one. */
  function FirstOnPath(path: seq<nat>, ptrs: map<nat, nat>): Option<nat> {
    if path == [] then None
    else if path[0] in ptrs then Some(ptrs[path[0]])
    else FirstOnPath(path[1..], ptrs)
  }

  /** Fit a search result into the data, or reject it. */
  function Checked(data: MonitoringData, size: nat, index: seq<byte>, zeroPos: nat, verPos: u64, version: nat, owned: bool)
    : VerifyResult<MonitoringData>
  {
    if index != data.index then Err(VerificationFailed)
    else if zeroPos != data.pos then Err(VerificationFailed)
    else if verPos in data.ptrs && data.ptrs[verPos] != version then Err(VerificationFailed)
    else
      var above := FirstOnPath(RightPath(verPos, size), data.ptrs);
      if verPos !in data.ptrs && above.Some? && above.value < version then Err(VerificationFailed)
      else
        var ptrs := if verPos !in data.ptrs && above == None then data.ptrs[verPos := version] else data.ptrs;
        Ok(data.(ptrs := ptrs,
                 maxObserved := if version > data.maxObserved then version else data.maxObserved,
                 owned := data.owned || owned))
  }

  /** after is the data after an update with the given entries. */
  ghost predicate Updated(data: MonitoringData, size: nat, entries: map<nat, ProofStep>, after: MonitoringData) {
    && MovedTo(data.ptrs, size, entries, after.ptrs)
    && IsMaximum(after.maxObserved, data.maxObserved, entries)
    && after == data.(ptrs := after.ptrs, maxObserved := after.maxObserved)
  }

  lemma UpdateIsDeterministic(data: MonitoringData, size: nat, entries: map<nat, ProofStep>, a: MonitoringData, b: MonitoringData)
    requires Updated(data, size, entries, a) && Updated(data, size, entries, b)
    ensures a == b
  {
    hide MovedTo, IsMaximum;
    MoveIsUnique(data.ptrs, size, entries, a.ptrs, b.ptrs);
    MaximumIsUnique(a.maxObserved, b.maxObserved, data.maxObserved, entries);
  }

  /** All stored positions can be walked up from in a tree of this size. */
  ghost predicate Reachable(data: MonitoringData, size: nat) {
    forall p | p in data.ptrs :: WalkReturns(p, data.pos, size)
  }

  class MonitoringDataWrapper {
    var inner: Option<MonitoringData>

    constructor (data: Option<MonitoringData>)
      ensures inner == data
    {
      inner := data;
    }

    /** Begin monitoring a key that is not yet monitored. */
    method StartMonitoring(index: Key, zeroPos: u64, verPos: u64, version: nat, owned: bool)
      modifies this
      ensures inner == if old(inner) != None then old(inner)
                       else Some(MonitoringData(index, zeroPos, map[verPos := version], owned, [], version))
    {
      if inner == None {
        inner := Some(MonitoringData(index, zeroPos, map[verPos := version], owned, [], version));
      }
    }

    method CheckSearchConsistency(size: u64, index: seq<byte>, zeroPos: u64, verPos: u64, version: nat, owned: bool)
      returns (r: VerifyResult<()>)
      requires zeroPos <= verPos < size <= MAX_TREE_SIZE
      modifies this
      ensures r.Ok? <==>
                old(inner) == None || Checked(old(inner).value, size, index, zeroPos, verPos, version, owned).Ok?
      ensures r.Ok? && old(inner) != None ==>
                inner == Some(Checked(old(inner).value, size, index, zeroPos, verPos, version, owned).value)
      ensures r.Err? || old(inner) == None ==> inner == old(inner)
    {
      hide RightPath, BelowRoot, MonitoringPath;
      if inner == None {
        return Ok(());
      }
      var data := inner.value;
      if index != data.index {
        return Err(VerificationFailed);
      }
      if zeroPos != data.pos {
        return Err(VerificationFailed);
      }
      if verPos in data.ptrs {
        if data.ptrs[verPos] != version {
          return Err(VerificationFailed);
        }
      } else {
        WindowBelowRoot(verPos, zeroPos, size);
        var walked := CollectMonitoringPath(verPos, zeroPos, size);
        var path := walked.value;
        var i := 0;
        assert path[0..] == path;
        while i < |path| && path[i] !in data.ptrs
          invariant 0 <= i <= |path|
          invariant FirstOnPath(path[i..], data.ptrs) == FirstOnPath(path, data.ptrs)
        {
          assert path[i..][1..] == path[i + 1..];
          i := i + 1;
        }
        if i < |path| {
          if data.ptrs[path[i]] < version {
            return Err(VerificationFailed);
          }
        } else {
          data := data.(ptrs := data.ptrs[verPos := version]);
        }
      }
      if version > data.maxObserved {
        data := data.(maxObserved := version);
      }
      if !data.owned && owned {
        data := data.(owned := true);
      }
      inner := Some(data);
      return Ok(());
    }

    method Update(size: u64, entries: map<nat, ProofStep>) returns (r: Option<VerifyResult<()>>)
      requires size <= MAX_TREE_SIZE
      modifies this
      ensures old(inner) == None ==> r == Some(Ok(()))
      ensures old(inner).Some? ==>
                var d := old(inner).value;
                && (r == None ==> SomeHangs(d.ptrs, d.pos, size, entries))
                && (r.Some? && r.value.Ok? <==> !SomeHangs(d.ptrs, d.pos, size, entries) && CanUpdate(d.ptrs, size, entries))
                && (r.Some? && r.value.Ok? ==> inner.Some? && Updated(d, size, entries, inner.value))
                && (r.Some? && r.value.Err? ==> !CanUpdate(d.ptrs, size, entries))
      ensures old(inner) == None || r == None || r.value.Err? ==> inner == old(inner)
    {
      hide CanUpdate, MovedTo, IsMaximum, SomeHangs;
      if inner == None {
        return Some(Ok(()));
      }
      var data := inner.value;
      var moved := MovePointers(data.ptrs, data.pos, size, entries);
      if moved == None {
        return None;
      }
      if moved.value.Err? {
        return Some(Err(moved.value.error));
      }
      var m := GreatestCounter(data.maxObserved, entries);
      inner := Some(data.(ptrs := moved.value.value, maxObserved := m));
      return Some(Ok(()));
    }
  }
}
