/** When monitoring data can be updated and where its pointers go, in terms of the positions shown.

Nothing here is stated through the functions that compute the update. */
module MonitorRules {
  import opened Wrappers
  import opened Bits
  import opened Geometry
  import opened Paths
  import opened Hashes
  import opened Monitor

  // ---------------------------------------------------------------------------------------------
  // Moving a pointer.

  /** a is an ancestor of p to its right in a tree of this size. */
  predicate RightOf(a: nat, p: nat, size: nat) {
    p < a < size && Within(p, a)
  }

  /** q and every right ancestor of p up to q are shown. */
  ghost predicate ShownUpTo(q: nat, p: nat, size: nat, entries: map<nat, ProofStep>) {
    RightOf(q, p, size) && forall a: nat | RightOf(a, p, size) && a <= q :: a in entries
  }

  /** The position is shown with a version at least v. */
  predicate NotBelow(q: nat, v: nat, entries: map<nat, ProofStep>) {
    q in entries && entries[q].prefix.Some? && entries[q].prefix.value.counter >= v
  }

  /** Nothing shown on the way up from p falls below v. */
  ghost predicate NeverFalls(p: nat, v: nat, size: nat, entries: map<nat, ProofStep>) {
    forall q: nat | ShownUpTo(q, p, size, entries) :: NotBelow(q, v, entries)
  }

  /** Where the pointer (p, v) ends up: at the highest position shown on the way up, with the version
  shown there, or where it was if nothing is shown. */
  ghost predicate EndsUp(p: nat, v: nat, size: nat, entries: map<nat, ProofStep>, t: nat, w: nat) {
    if exists q: nat :: ShownUpTo(q, p, size, entries)
    then && ShownUpTo(t, p, size, entries) && (forall q: nat | ShownUpTo(q, p, size, entries) :: q <= t)
         && entries[t].prefix.Some? && w == entries[t].prefix.value.counter
    else t == p && w == v
  }

  /** The path as a whole is the right ancestors in order. */
  ghost predicate PathOf(path: seq<nat>, from: nat, p: nat, size: nat) {
    && (forall i, j | 0 <= i < j < |path| :: path[i] < path[j])
    && (forall a: nat :: a in path <==> RightOf(a, p, size) && from < a)
  }

  lemma RightPathOf(p: nat, size: nat)
    ensures PathOf(RightPath(p, size), p, p, size)
  {
    hide RightPath, First;
    RightPathIncreases(p, size);
    forall a: nat
      ensures a in RightPath(p, size) <==> RightOf(a, p, size)
    {
      RightPathIs(p, size, a);
    }
  }

  lemma PathRest(path: seq<nat>, from: nat, p: nat, size: nat)
    requires PathOf(path, from, p, size) && path != []
    ensures PathOf(path[1..], path[0], p, size) && RightOf(path[0], p, size) && from < path[0]
    ensures forall a: nat | RightOf(a, p, size) && from < a :: path[0] <= a
  {
    hide RightOf;
    assert path[0] in path;
    forall a: nat
      ensures a in path[1..] <==> RightOf(a, p, size) && path[0] < a
    {
      assert a in path <==> a == path[0] || a in path[1..];
      if a in path[1..] { var i :| 0 < i < |path| && path[i] == a; }
    }
  }

  /** All right ancestors of p up to from are shown and good. */
  ghost predicate GoodUpTo(from: nat, p: nat, v: nat, size: nat, entries: map<nat, ProofStep>) {
    forall a: nat | RightOf(a, p, size) && a <= from :: NotBelow(a, v, entries)
  }

  /** The best position so far is the last one, if there is one. */
  ghost predicate BestSoFar(from: nat, p: nat, size: nat, entries: map<nat, ProofStep>, best: Option<(nat, nat)>) {
    if from == p then best == None
    else RightOf(from, p, size) && from in entries && entries[from].prefix.Some?
         && best == Some((from, entries[from].prefix.value.counter))
  }

  /** What bubbling up comes to from halfway. */
  lemma {:induction false} BubbleMeans(path: seq<nat>, from: nat, p: nat, v: nat, size: nat, entries: map<nat, ProofStep>,
                                       best: Option<(nat, nat)>)
    requires PathOf(path, from, p, size) && from >= p
    requires GoodUpTo(from, p, v, size, entries) && BestSoFar(from, p, size, entries, best)
    ensures var r := Bubble(path, v, entries, best);
            && (r.Ok? <==> NeverFalls(p, v, size, entries))
            && (r.Ok? && r.value == None ==> EndsUp(p, v, size, entries, p, v))
            && (r.Ok? && r.value.Some? ==> EndsUp(p, v, size, entries, r.value.value.0, r.value.value.1))
    decreases |path|
  {
    hide RightOf;
    if path == [] || path[0] !in entries {
      BubbleStops(path, from, p, v, size, entries, best);
    } else {
      PathRest(path, from, p, size);
      assert ShownUpTo(path[0], p, size, entries);
      if NotBelow(path[0], v, entries) {
        BubbleMeans(path[1..], path[0], p, v, size, entries, Some((path[0], entries[path[0]].prefix.value.counter)));
      }
    }
  }

  /** At the first position that is not shown, or at the top. */
  lemma BubbleStops(path: seq<nat>, from: nat, p: nat, v: nat, size: nat, entries: map<nat, ProofStep>, best: Option<(nat, nat)>)
    requires PathOf(path, from, p, size) && from >= p && (path == [] || path[0] !in entries)
    requires GoodUpTo(from, p, v, size, entries) && BestSoFar(from, p, size, entries, best)
    ensures NeverFalls(p, v, size, entries)
    ensures best == None ==> EndsUp(p, v, size, entries, p, v)
    ensures best.Some? ==> EndsUp(p, v, size, entries, best.value.0, best.value.1)
  {
    forall q: nat | ShownUpTo(q, p, size, entries)
      ensures q <= from
    {
      if from < q {
        assert q in path;
        PathRest(path, from, p, size);
      }
    }
    if from != p { assert ShownUpTo(from, p, size, entries); }
  }

  /** A pointer can move exactly if nothing shown on its way up falls below it, and then it ends up at the
  highest position shown. */
  lemma TargetMeans(p: nat, v: nat, size: nat, entries: map<nat, ProofStep>)
    ensures var t := Target(p, v, size, entries);
            && (t.Ok? <==> NeverFalls(p, v, size, entries))
            && (t.Ok? ==> EndsUp(p, v, size, entries, t.value.0, t.value.1))
  {
    hide RightPath, Bubble, PathOf, NeverFalls, EndsUp;
    RightPathOf(p, size);
    BubbleMeans(RightPath(p, size), p, p, v, size, entries, None);
  }

  lemma EndsUpOnce(p: nat, v: nat, size: nat, entries: map<nat, ProofStep>, t: nat, w: nat, t': nat, w': nat)
    requires EndsUp(p, v, size, entries, t, w) && EndsUp(p, v, size, entries, t', w')
    ensures t == t' && w == w'
  {
    hide RightOf;
  }

  // ---------------------------------------------------------------------------------------------
  // Moving all of them.

  /** Two pointers that end up at one position have one version there. */
  ghost predicate MeetWell(p: nat, q: nat, ptrs: map<nat, nat>, size: nat, entries: map<nat, ProofStep>)
    requires p in ptrs && q in ptrs
  {
    forall t: nat, w: nat, w': nat | EndsUp(p, ptrs[p], size, entries, t, w) && EndsUp(q, ptrs[q], size, entries, t, w') :: w == w'
  }

  lemma AgreeMeans(p: nat, q: nat, ptrs: map<nat, nat>, size: nat, entries: map<nat, ProofStep>)
    requires p in ptrs && q in ptrs && Target(p, ptrs[p], size, entries).Ok? && Target(q, ptrs[q], size, entries).Ok?
    ensures Agree(p, q, ptrs, size, entries) <==> MeetWell(p, q, ptrs, size, entries)
  {
    hide Target, EndsUp;
    TargetMeans(p, ptrs[p], size, entries);
    TargetMeans(q, ptrs[q], size, entries);
    var a, b := Target(p, ptrs[p], size, entries).value, Target(q, ptrs[q], size, entries).value;
    forall t: nat, w: nat, w': nat | EndsUp(p, ptrs[p], size, entries, t, w) && EndsUp(q, ptrs[q], size, entries, t, w')
      ensures a == (t, w) && b == (t, w')
    {
      EndsUpOnce(p, ptrs[p], size, entries, t, w, a.0, a.1);
      EndsUpOnce(q, ptrs[q], size, entries, t, w', b.0, b.1);
    }
  }

  /** The pointers can be updated if and only if nothing shown on the way up from any of them falls below
  it and those that meet agree. */
  lemma CanUpdateMeans(ptrs: map<nat, nat>, size: nat, entries: map<nat, ProofStep>)
    ensures CanUpdate(ptrs, size, entries) <==>
              && (forall p | p in ptrs :: NeverFalls(p, ptrs[p], size, entries))
              && (forall p, q | p in ptrs && q in ptrs :: MeetWell(p, q, ptrs, size, entries))
  {
    hide Target, NeverFalls, EndsUp, MeetWell, Agree;
    forall p | p in ptrs
      ensures Target(p, ptrs[p], size, entries).Ok? <==> NeverFalls(p, ptrs[p], size, entries)
    {
      TargetMeans(p, ptrs[p], size, entries);
    }
    if forall p | p in ptrs :: Target(p, ptrs[p], size, entries).Ok? {
      forall p, q | p in ptrs && q in ptrs
        ensures Agree(p, q, ptrs, size, entries) <==> MeetWell(p, q, ptrs, size, entries)
      {
        AgreeMeans(p, q, ptrs, size, entries);
      }
    }
  }

  /** Some pointer ends up here with this version. */
  ghost predicate Receives(t: nat, w: nat, ptrs: map<nat, nat>, size: nat, entries: map<nat, ProofStep>) {
    exists p :: p in ptrs && EndsUp(p, ptrs[p], size, entries, t, w)
  }

  /** After an update the pointers are exactly where the pointers before ended up. */
  lemma MovedMeans(ptrs: map<nat, nat>, size: nat, entries: map<nat, ProofStep>, moved: map<nat, nat>, t: nat, w: nat)
    requires MovedTo(ptrs, size, entries, moved)
    ensures t in moved && moved[t] == w <==> Receives(t, w, ptrs, size, entries)
    ensures forall p | p in ptrs :: NeverFalls(p, ptrs[p], size, entries)
  {
    hide Target, NeverFalls, EndsUp;
    forall p | p in ptrs
      ensures Target(p, ptrs[p], size, entries).Ok? && NeverFalls(p, ptrs[p], size, entries)
    {
      assert Lands(p, ptrs[p], size, entries, moved);
      TargetMeans(p, ptrs[p], size, entries);
    }
    if t in moved && moved[t] == w {
      assert ComesFrom(t, ptrs, size, entries);
      var p :| Reaches(p, t, ptrs, size, entries);
      assert Lands(p, ptrs[p], size, entries, moved);
      TargetMeans(p, ptrs[p], size, entries);
    }
    if Receives(t, w, ptrs, size, entries) {
      var p :| p in ptrs && EndsUp(p, ptrs[p], size, entries, t, w);
      TargetMeans(p, ptrs[p], size, entries);
      var a := Target(p, ptrs[p], size, entries).value;
      EndsUpOnce(p, ptrs[p], size, entries, t, w, a.0, a.1);
      assert Lands(p, ptrs[p], size, entries, moved);
    }
  }

  // ---------------------------------------------------------------------------------------------
  // Fitting a search result in.

  /** a is the nearest pointer among the right ancestors of p. */
  ghost predicate NearestAbove(a: nat, p: nat, size: nat, ptrs: map<nat, nat>) {
    RightOf(a, p, size) && a in ptrs && forall b: nat | RightOf(b, p, size) && b in ptrs :: a <= b
  }

  lemma {:induction false} FirstOnPathMeans(path: seq<nat>, from: nat, p: nat, size: nat, ptrs: map<nat, nat>)
    requires PathOf(path, from, p, size) && forall b: nat | RightOf(b, p, size) && b <= from :: b !in ptrs
    ensures FirstOnPath(path, ptrs) == None <==> forall b: nat | RightOf(b, p, size) :: b !in ptrs
    ensures FirstOnPath(path, ptrs).Some? ==>
              exists a: nat :: NearestAbove(a, p, size, ptrs) && ptrs[a] == FirstOnPath(path, ptrs).value
    decreases |path|
  {
    hide RightOf;
    if path != [] {
      PathRest(path, from, p, size);
      if path[0] in ptrs {
        assert NearestAbove(path[0], p, size, ptrs);
      } else {
        FirstOnPathMeans(path[1..], path[0], p, size, ptrs);
      }
    }
  }

  lemma NearestOnce(a: nat, b: nat, p: nat, size: nat, ptrs: map<nat, nat>)
    requires NearestAbove(a, p, size, ptrs) && NearestAbove(b, p, size, ptrs)
    ensures a == b
  {
    hide RightOf;
  }

  /** A search result fits if and only if it is about this key and neither contradicts the pointer at its
  position nor exceeds the nearest one above.  It then adds a pointer exactly if there is none at or above
  its position, raises the greatest version observed to its own, and keeps a key owned once it is. */
  lemma CheckedMeans(data: MonitoringData, size: nat, index: seq<byte>, zeroPos: nat, verPos: u64, version: nat, owned: bool)
    ensures var r := Checked(data, size, index, zeroPos, verPos, version, owned);
            && (r.Ok? <==>
                  && index == data.index && zeroPos == data.pos
                  && (if verPos in data.ptrs then data.ptrs[verPos] == version
                      else forall a: nat | NearestAbove(a, verPos, size, data.ptrs) :: data.ptrs[a] >= version))
            && (r.Ok? ==>
                  && r.value.(ptrs := data.ptrs, maxObserved := data.maxObserved, owned := data.owned) == data
                  && r.value.ptrs == (if verPos in data.ptrs || exists a: nat :: NearestAbove(a, verPos, size, data.ptrs)
                                      then data.ptrs else data.ptrs[verPos := version])
                  && r.value.maxObserved >= version && r.value.maxObserved >= data.maxObserved
                  && r.value.maxObserved in {version, data.maxObserved}
                  && (r.value.owned <==> data.owned || owned))
  {
    hide RightPath, FirstOnPath, RightOf, PathOf;
    var path := RightPath(verPos, size);
    RightPathOf(verPos, size);
    NothingAtSelf(verPos, size);
    FirstOnPathMeans(path, verPos, verPos, size, data.ptrs);
    if FirstOnPath(path, data.ptrs).Some? {
      var b: nat :| NearestAbove(b, verPos, size, data.ptrs) && data.ptrs[b] == FirstOnPath(path, data.ptrs).value;
      forall a: nat | NearestAbove(a, verPos, size, data.ptrs)
        ensures a == b
      {
        NearestOnce(a, b, verPos, size, data.ptrs);
      }
    }
  }

  lemma NothingAtSelf(p: nat, size: nat)
    ensures forall b: nat | b <= p :: !RightOf(b, p, size)
  {
  }
}
