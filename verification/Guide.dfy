/** The proof guide: a stateful binary search over the versions of one key in the log. */
module Guide {
  import opened Wrappers
  import opened Bits
  import opened Geometry
  import opened Implicit
  import opened Paths
  import opened Sorting

  datatype VersionedId = VersionedId(id: nat, version: nat)

  datatype Outcome = Pending | Finished | InvalidState

  /** How a guided search ends. */
  datatype Answer =
    | Found(index: nat, id: nat)
    | NotFound
    | NotMonotonic
    | StepFailed

  // ---------------------------------------------------------------------------------------------
  // What has been fetched.

  ghost predicate Has(fetched: seq<VersionedId>, id: nat, version: nat) {
    exists k | 0 <= k < |fetched| :: fetched[k] == VersionedId(id, version)
  }

  /** Versions never fall from left to right among the fetched ids. */
  ghost predicate Monotonic(fetched: seq<VersionedId>) {
    forall i, j | 0 <= i < |fetched| && 0 <= j < |fetched| ::
      fetched[i].id < fetched[j].id ==> fetched[i].version <= fetched[j].version
  }

  ghost predicate Below(fetched: seq<VersionedId>, id: nat, version: nat) {
    exists k | 0 <= k < |fetched| :: fetched[k].id == id && fetched[k].version < version
  }

  ghost predicate AtLeast(fetched: seq<VersionedId>, id: nat, version: nat) {
    exists k | 0 <= k < |fetched| :: fetched[k].id == id && fetched[k].version >= version
  }

  /** Everything before lo is below the version and everything from hi on is not, as far as fetched. */
  ghost predicate Bracketed(fetched: seq<VersionedId>, version: nat, lo: nat, hi: nat, pos: nat, n: nat) {
    && pos <= lo <= hi <= n
    && (lo == pos || Below(fetched, lo - 1, version))
    && (hi == n || AtLeast(fetched, hi, version))
  }

  lemma BracketedGrows(fetched: seq<VersionedId>, e: VersionedId, version: nat, lo: nat, hi: nat, pos: nat, n: nat)
    requires Bracketed(fetched, version, lo, hi, pos, n)
    ensures Bracketed(fetched + [e], version, lo, hi, pos, n)
  {
    var f := fetched + [e];
    if lo != pos {
      var k :| 0 <= k < |fetched| && fetched[k].id == lo - 1 && fetched[k].version < version;
      assert f[k] == fetched[k];
    }
    if hi != n {
      var k :| 0 <= k < |fetched| && fetched[k].id == hi && fetched[k].version >= version;
      assert f[k] == fetched[k];
    }
  }

  // ---------------------------------------------------------------------------------------------
  // Sorting what has been fetched.

  ghost predicate DistinctIds(s: seq<VersionedId>) {
    forall i, j | 0 <= i < j < |s| :: s[i].id != s[j].id
  }

  ghost predicate IncreasingIds(s: seq<VersionedId>) {
    forall i, j | 0 <= i < j < |s| :: s[i].id < s[j].id
  }

  function SortById(s: seq<VersionedId>): seq<VersionedId> {
    SortBy(s, (e: VersionedId) => e.id)
  }

  lemma SameMembers<T>(a: seq<T>, b: seq<T>, x: T)
    requires multiset(a) == multiset(b)
    ensures x in a <==> x in b
  {
    assert x in a <==> x in multiset(a);
    assert x in b <==> x in multiset(b);
  }

  lemma Occurs(s: seq<VersionedId>, i: nat, j: nat)
    requires i < j < |s| && s[i] == s[j]
    ensures multiset(s)[s[i]] >= 2
  {
    assert s == s[..i] + [s[i]] + s[i + 1..j] + [s[j]] + s[j + 1..];
  }

  lemma {:induction false} OccursOnce(s: seq<VersionedId>, e: VersionedId)
    requires DistinctIds(s)
    ensures multiset(s)[e] <= 1
  {
    if s != [] {
      OccursOnce(s[1..], e);
      assert s == [s[0]] + s[1..];
      if e == s[0] { assert e !in s[1..]; }
    }
  }

  /** Sorting by distinct ids gives increasing ids over the same entries. */
  lemma SortByIdIs(s: seq<VersionedId>, fetched: seq<VersionedId>)
    requires multiset(s) == multiset(fetched) && DistinctIds(fetched)
    ensures IncreasingIds(SortById(s)) && multiset(SortById(s)) == multiset(fetched)
    ensures |SortById(s)| == |fetched|
  {
    SortByIs(s, (e: VersionedId) => e.id);
    var t := SortById(s);
    assert |multiset(t)| == |multiset(fetched)|;
    forall i, j | 0 <= i < j < |t|
      ensures t[i].id < t[j].id
    {
      SameMembers(t, fetched, t[i]);
      SameMembers(t, fetched, t[j]);
      var a :| 0 <= a < |fetched| && fetched[a] == t[i];
      var b :| 0 <= b < |fetched| && fetched[b] == t[j];
      if t[i] == t[j] {
        Occurs(t, i, j);
        OccursOnce(fetched, t[i]);
      } else {
        assert a != b;
      }
    }
  }

  predicate NeighboursMonotonic(s: seq<VersionedId>) {
    forall i | 0 <= i < |s| - 1 :: s[i].version <= s[i + 1].version
  }

  lemma {:induction false} NeighboursSuffice(s: seq<VersionedId>, i: nat, j: nat)
    requires NeighboursMonotonic(s) && i <= j < |s|
    ensures s[i].version <= s[j].version
    decreases j - i
  {
    if i < j { NeighboursSuffice(s, i, j - 1); }
  }

  /** The check on neighbours of the sorted list is the check on all pairs of fetched entries. */
  lemma MonotonicBySorting(s: seq<VersionedId>, fetched: seq<VersionedId>)
    requires IncreasingIds(s) && multiset(s) == multiset(fetched)
    ensures NeighboursMonotonic(s) <==> Monotonic(fetched)
  {
    if NeighboursMonotonic(s) {
      forall i, j | 0 <= i < |fetched| && 0 <= j < |fetched| && fetched[i].id < fetched[j].id
        ensures fetched[i].version <= fetched[j].version
      {
        SameMembers(s, fetched, fetched[i]);
        SameMembers(s, fetched, fetched[j]);
        var a :| 0 <= a < |s| && s[a] == fetched[i];
        var b :| 0 <= b < |s| && s[b] == fetched[j];
        NeighboursSuffice(s, a, b);
      }
    }
    if Monotonic(fetched) {
      forall i | 0 <= i < |s| - 1
        ensures s[i].version <= s[i + 1].version
      {
        SameMembers(s, fetched, s[i]);
        SameMembers(s, fetched, s[i + 1]);
        var a :| 0 <= a < |fetched| && fetched[a] == s[i];
        var b :| 0 <= b < |fetched| && fetched[b] == s[i + 1];
        assert fetched[a].id < fetched[b].id;
      }
    }
  }

  // ---------------------------------------------------------------------------------------------
  // The search step.

  /** ids is a search path whose last id is the root of the part [lo, hi) still to be searched. */
  ghost predicate Searching(ids: seq<nat>, lo: nat, hi: nat, pos: nat, n: nat) {
    && ids != [] && pos < n
    && Region(ids[|ids| - 1], lo, hi, pos, n)
    && (forall i | 0 <= i < |ids| - 1 :: !(lo <= ids[i] < hi))
    && |ids| + Level(ids[|ids| - 1]) <= 2 * Log2(n) + 1
  }

  /** Where the search goes from x: the side on which the version must start, unless it is empty. */
  datatype Move = GoLeft | GoRight | Stop

  function NextMove(x: nat, ctr: nat, version: nat, pos: nat, n: nat): Move {
    if x % 2 == 0 then Stop
    else if ctr < version then (if x == n - 1 then Stop else GoRight)
    else (if x == pos then Stop else GoLeft)
  }

  /** The bounds after looking at x. */
  function NewLo(x: nat, ctr: nat, version: nat, lo: nat): nat {
    if ctr < version then x + 1 else lo
  }

  function NewHi(x: nat, ctr: nat, version: nat, hi: nat): nat {
    if ctr < version then hi else x
  }

  /** When the search stops, the bounds have met. */
  lemma StopMeansDone(x: nat, ctr: nat, version: nat, lo: nat, hi: nat, pos: nat, n: nat)
    requires Region(x, lo, hi, pos, n) && NextMove(x, ctr, version, pos, n) == Stop
    ensures NewLo(x, ctr, version, lo) == NewHi(x, ctr, version, hi)
  {
    hide First, Level;
    RegionInterior(x, lo, hi, pos, n);
    LeafOrWider(x);
  }

  lemma LeafOrWider(x: nat)
    ensures x % 2 == 1 ==> Lo(x) < x < Hi(x)
  {
    hide First, Level;
    if x % 2 == 1 {
      LeftOfIs(x);
      RightOfIs(x);
    }
  }

  /** When it goes on, the child it moves to is the root of what is left. */
  lemma MoveKeepsRegion(x: nat, ctr: nat, version: nat, lo: nat, hi: nat, pos: nat, n: nat)
    requires Region(x, lo, hi, pos, n) && NextMove(x, ctr, version, pos, n) != Stop
    ensures x % 2 == 1 && lo <= x < hi
    ensures ctr < version ==> x < n - 1
    ensures ctr < version ==> Region(SearchRight(x, pos, n), x + 1, hi, pos, n)
    ensures ctr < version ==> Level(SearchRight(x, pos, n)) < Level(x)
    ensures ctr >= version ==> pos < x
    ensures ctr >= version ==> Region(SearchLeft(x, pos, n), lo, x, pos, n)
    ensures ctr >= version ==> Level(SearchLeft(x, pos, n)) < Level(x)
  {
    hide First, Level, SearchLeft, SearchRight;
    LeafOrWider(x);
    if ctr < version {
      RegionRight(x, lo, hi, pos, n);
    } else {
      RegionLeft(x, lo, hi, pos, n);
    }
  }

  lemma BracketStep(fetched: seq<VersionedId>, x: nat, ctr: nat, version: nat, lo: nat, hi: nat, pos: nat, n: nat)
    requires Bracketed(fetched, version, lo, hi, pos, n) && Has(fetched, x, ctr) && lo <= x < hi
    ensures Bracketed(fetched, version, NewLo(x, ctr, version, lo), NewHi(x, ctr, version, hi), pos, n)
  {
    var k :| 0 <= k < |fetched| && fetched[k] == VersionedId(x, ctr);
    if ctr < version {
      assert Below(fetched, x, version);
    } else {
      assert AtLeast(fetched, x, version);
    }
  }

  /** Pushing the next id keeps the path a search path. */
  lemma PushKeepsSearching(ids: seq<nat>, next: nat, lo: nat, hi: nat, pos: nat, n: nat)
    requires pos < n && Region(next, lo, hi, pos, n)
    requires forall i | 0 <= i < |ids| :: !(lo <= ids[i] < hi)
    requires |ids| + 1 + Level(next) <= 2 * Log2(n) + 1
    ensures Searching(ids + [next], lo, hi, pos, n)
    ensures forall i | 0 <= i < |ids| :: ids[i] != next
    ensures pos <= next < n
  {
    hide Level, Log2;
    assert lo <= next < hi;
  }

  lemma PushKeepsDistinct(ids: seq<nat>, next: nat, fetched: seq<VersionedId>, pos: nat, n: nat)
    requires Answers(fetched, ids) && DistinctIn(ids, pos, n) && pos <= next < n && forall i | 0 <= i < |ids| :: ids[i] != next
    ensures Answers(fetched, ids + [next]) && DistinctIn(ids + [next], pos, n)
  {
  }

  // ---------------------------------------------------------------------------------------------
  // Starting from the frontier.

  /** Where the part searched from the i-th frontier node begins. */
  function FrontierLo(f: seq<nat>, i: nat, pos: nat): nat
    requires i < |f|
  {
    if i == 0 then pos else f[i - 1] + 1
  }

  lemma {:induction false} FrontierRegions(start: nat, pos: nat, n: nat, i: nat)
    requires pos <= start < n && i < |Frontier(start, n)|
    requires Region(SearchRoot(start, n), start, n, pos, n)
    ensures Region(Frontier(start, n)[i], FrontierLo(Frontier(start, n), i, start), n, pos, n)
    ensures Level(Frontier(start, n)[i]) <= Log2(n)
    decreases n - start
  {
    hide First, Level, SearchRoot, Log2, Region, SearchRight;
    var f, r := Frontier(start, n), SearchRoot(start, n);
    RootIsPeak(start, n);
    if i > 0 {
      assert Within(n - 1, r);
      RightOnFrontier(r, pos, n);
      RegionRight(r, start, n, pos, n);
      FrontierRegions(r + 1, pos, n, i - 1);
      assert f[1..] == Frontier(r + 1, n);
    }
  }

  /** Once the frontier is fetched, the search starts at its first node with the final version. */
  lemma FrontierStarts(fetched: seq<VersionedId>, version: nat, pos: nat, n: nat, i: nat)
    requires pos < n && |fetched| == |Frontier(pos, n)| && Monotonic(fetched) && i < |fetched|
    requires forall k | 0 <= k < |fetched| :: fetched[k].id == Frontier(pos, n)[k]
    requires fetched[i].version == version && forall k | 0 <= k < i :: fetched[k].version != version
    ensures var f := Frontier(pos, n); var lo := FrontierLo(f, i, pos);
            && Region(f[i], lo, n, pos, n) && Bracketed(fetched, version, lo, n, pos, n)
            && (forall k | 0 <= k < |f| :: !(lo <= f[k] < f[i]))
            && |f| <= Log2(n) + 1 && Level(f[i]) <= Log2(n)
  {
    hide First, Level, Frontier, Log2, Region;
    var f := Frontier(pos, n);
    RegionOfRoot(pos, n);
    FrontierRegions(pos, pos, n, i);
    FrontierIs(pos, n);
    if i > 0 {
      assert fetched[i - 1].id < fetched[i].id;
      assert Below(fetched, f[i - 1], version);
    }
  }

  // ---------------------------------------------------------------------------------------------
  // The guide.

  /** fetched lists the answers for the first ids, in the order they were asked for. */
  ghost predicate Answers(fetched: seq<VersionedId>, ids: seq<nat>) {
    |fetched| <= |ids| && forall k | 0 <= k < |fetched| :: fetched[k].id == ids[k]
  }

  ghost predicate DistinctIn(ids: seq<nat>, pos: nat, n: nat) {
    && (forall i, j | 0 <= i < j < |ids| :: ids[i] != ids[j])
    && (forall i | 0 <= i < |ids| :: pos <= ids[i] < n)
  }

  /** The version searched for is the requested one, or the one found at the last log entry. */
  ghost predicate Wanted(request: Option<nat>, version: nat, fetched: seq<VersionedId>, n: nat)
    requires n >= 1
  {
    match request
    case Some(v) => version == v
    case None => Has(fetched, n - 1, version)
  }

  lemma AnswersDistinct(fetched: seq<VersionedId>, ids: seq<nat>, pos: nat, n: nat)
    requires Answers(fetched, ids) && DistinctIn(ids, pos, n)
    ensures DistinctIds(fetched)
  {
  }

  // ---------------------------------------------------------------------------------------------
  // What the guide does next is a matter of what has been fetched.

  /** What a finished search has established, whatever counters it was given. */
  ghost predicate Established(fetched: seq<VersionedId>, request: Option<nat>, version: nat, first: nat, pos: nat, n: nat)
    requires n >= 1
  {
    && Monotonic(fetched) && Wanted(request, version, fetched, n)
    && Bracketed(fetched, version, first, first, pos, n)
  }

  /** The frontier is fetched first when the newest version is wanted. */
  ghost predicate FrontierPhase(request: Option<nat>, fetched: seq<VersionedId>, pos: nat, n: nat)
    requires pos < n
  {
    request == None && |fetched| < |Frontier(pos, n)|
  }

  /** A stretch of the log in which the version must start and of which nothing has been fetched. */
  ghost predicate Gap(fetched: seq<VersionedId>, request: Option<nat>, version: nat, lo: nat, hi: nat, pos: nat, n: nat)
    requires pos < n
  {
    && Wanted(request, version, fetched, n) && Bracketed(fetched, version, lo, hi, pos, n)
    && forall k | 0 <= k < |fetched| :: !(lo <= fetched[k].id < hi)
  }

  ghost predicate PeakOfGap(fetched: seq<VersionedId>, request: Option<nat>, version: nat, lo: nat, hi: nat, pos: nat, n: nat, id: nat)
    requires pos < n
  {
    Gap(fetched, request, version, lo, hi, pos, n) && Region(id, lo, hi, pos, n)
  }

  /** The next request: along the frontier, then always for the root of the gap. */
  ghost predicate Asks(request: Option<nat>, fetched: seq<VersionedId>, pos: nat, n: nat, id: nat)
    requires pos < n
  {
    if FrontierPhase(request, fetched, pos, n) then id == Frontier(pos, n)[|fetched|]
    else Monotonic(fetched) && exists version: nat, lo: nat, hi: nat :: PeakOfGap(fetched, request, version, lo, hi, pos, n, id)
  }

  /** The gap has closed. */
  ghost predicate Ends(request: Option<nat>, fetched: seq<VersionedId>, version: nat, first: nat, pos: nat, n: nat)
    requires pos < n
  {
    !FrontierPhase(request, fetched, pos, n) && Established(fetched, request, version, first, pos, n)
  }

  ghost predicate Complains(request: Option<nat>, fetched: seq<VersionedId>, pos: nat, n: nat)
    requires pos < n
  {
    !FrontierPhase(request, fetched, pos, n) && !Monotonic(fetched)
  }

  /** Everything fetched was asked for in its turn. */
  ghost predicate Followed(request: Option<nat>, fetched: seq<VersionedId>, pos: nat, n: nat)
    requires pos < n
  {
    forall k | 0 <= k < |fetched| :: AskedAt(request, fetched, pos, n, k)
  }

  ghost predicate AskedAt(request: Option<nat>, fetched: seq<VersionedId>, pos: nat, n: nat, k: nat)
    requires pos < n && k < |fetched|
  {
    Asks(request, fetched[..k], pos, n, fetched[k].id)
  }

  class ProofGuide {
    const pos: u64
    const n: u64
    var version: nat
    var ids: seq<nat>
    var sorted: seq<VersionedId>
    var isFrontier: bool

    /** The version asked for, the answers in fetch order, and the part still to be searched. */
    ghost const request: Option<nat>
    ghost var fetched: seq<VersionedId>
    ghost var lo: nat
    ghost var hi: nat

    ghost predicate Shape()
      reads this
    {
      && pos < n <= MAX_TREE_SIZE
      && |sorted| == |fetched| && multiset(sorted) == multiset(fetched)
      && Answers(fetched, ids) && DistinctIn(ids, pos, n)
      && |ids| <= 2 * Log2(n) + 1
    }

    ghost predicate Valid()
      reads this
    {
      && Shape()
      && (isFrontier ==> ids == Frontier(pos, n) && request == None)
      && (!isFrontier ==>
            && Searching(ids, lo, hi, pos, n) && Bracketed(fetched, version, lo, hi, pos, n)
            && Wanted(request, version, fetched, n) && |ids| <= |fetched| + 1
            && (|fetched| < |ids| ==> Monotonic(fetched)) && !FrontierPhase(request, fetched, pos, n))
    }

    /** The search is over: lo is the first position that may carry the version. */
    ghost predicate Final()
      reads this
    {
      && Shape() && !isFrontier && |ids| == |fetched|
      && IncreasingIds(sorted) && Monotonic(fetched)
      && Bracketed(fetched, version, lo, lo, pos, n) && Wanted(request, version, fetched, n)
      && !FrontierPhase(request, fetched, pos, n)
    }

    constructor ForVersion(v: nat, pos: u64, n: u64)
      requires pos < n <= MAX_TREE_SIZE
      ensures Valid() && this.pos == pos && this.n == n && request == Some(v) && fetched == []
    {
      var root := Root(pos, n);
      this.pos, this.n, version, isFrontier := pos, n, v, false;
      ids, sorted := [root.value], [];
      request, fetched, lo, hi := Some(v), [], pos, n;
      new;
      hide First, Level, SearchRoot, Region, Log2;
      RegionOfRoot(pos, n);
      RootIsPeak(pos, n);
    }

    constructor ForMostRecent(pos: u64, n: u64)
      requires pos < n <= MAX_TREE_SIZE
      ensures Valid() && this.pos == pos && this.n == n && request == None && fetched == []
    {
      var f := CollectFrontier(pos, n);
      this.pos, this.n, version, isFrontier := pos, n, 0, true;
      ids, sorted := f, [];
      request, fetched, lo, hi := None, [], pos, n;
      new;
      hide First, Level, Frontier, Log2;
      FrontierIs(pos, n);
    }

    /** The next id to fetch. */
    method NextId() returns (id: nat)
      requires Valid() && |fetched| < |ids|
      ensures id == ids[|fetched|] && pos <= id < n
    {
      id := ids[|sorted|];
    }

    /** The id to fetch next is the one the fetched answers ask for. */
    lemma NextIsAsked()
      requires Valid() && |fetched| < |ids|
      ensures Asks(request, fetched, pos, n, ids[|fetched|])
    {
      hide First, Level, Log2, Bracketed, Region, Monotonic, Wanted, Frontier;
      if !isFrontier {
        assert PeakOfGap(fetched, request, version, lo, hi, pos, n, ids[|fetched|]);
      }
    }

    /** Record the counter found at an id. */
    method Insert(id: nat, ctr: nat)
      requires Valid() && |fetched| < |ids| && id == ids[|fetched|]
      modifies this
      ensures Valid() && ids == old(ids) && fetched == old(fetched) + [VersionedId(id, ctr)]
    {
      hide First, Level, Frontier, Log2, Searching, Bracketed;
      if !isFrontier { BracketedGrows(fetched, VersionedId(id, ctr), version, lo, hi, pos, n); }
      if request == None && !isFrontier { HasGrows(fetched, VersionedId(id, ctr), n - 1, version); }
      sorted := sorted + [VersionedId(id, ctr)];
      fetched := fetched + [VersionedId(id, ctr)];
    }

    /** From the node x just looked at: finish, or push the id of the child to look at next. */
    method Advance(x: nat, ghost ctr: nat) returns (o: Outcome)
      requires Shape() && !isFrontier && |ids| == |fetched| && IncreasingIds(sorted) && Monotonic(fetched)
      requires Region(x, lo, hi, pos, n) && Bracketed(fetched, version, lo, hi, pos, n)
      requires Has(fetched, x, ctr) && Wanted(request, version, fetched, n) && !FrontierPhase(request, fetched, pos, n)
      requires forall i | 0 <= i < |ids| ::
                 !(NewLo(x, ctr, version, lo) <= ids[i] < NewHi(x, ctr, version, hi))
      requires |ids| + Level(x) <= 2 * Log2(n) + 1
      modifies this
      ensures o == Pending ==> Valid() && |fetched| < |ids|
      ensures o == Finished ==> Final()
      ensures o != InvalidState && fetched == old(fetched) && old(ids) <= ids
    {
      hide First, Level, SearchLeft, SearchRight, Region, Log2, Bracketed, Searching, Monotonic, IncreasingIds, Has, NewLo, NewHi,
           FrontierPhase, Wanted, Answers, DistinctIn, Frontier;
      InRegion(x, lo, hi, pos, n);
      BracketStep(fetched, x, ctr, version, lo, hi, pos, n);
      ghost var lo', hi' := NewLo(x, ctr, version, lo), NewHi(x, ctr, version, hi);
      var found := VersionOf(sorted, x, fetched, ctr);
      if NextMove(x, found, version, pos, n) == Stop {
        StopMeansDone(x, ctr, version, lo, hi, pos, n);
        lo, hi := lo', hi';
        return Finished;
      }
      MoveKeepsRegion(x, ctr, version, lo, hi, pos, n);
      NewBounds(x, ctr, version, lo, hi);
      var next: nat;
      if found < version {
        next := Right(x, pos, n);
      } else {
        next := Left(x, pos, n);
      }
      lo, hi := lo', hi';
      PushKeepsSearching(ids, next, lo, hi, pos, n);
      PushKeepsDistinct(ids, next, fetched, pos, n);
      ids := ids + [next];
      return Pending;
    }

    /** Decide whether the search is finished; if not, there is an id to fetch. */
    method Poll() returns (o: Outcome)
      requires Valid()
      modifies this
      ensures o == Pending ==> Valid() && |fetched| < |ids|
      ensures o == Finished ==> Final()
      ensures o == InvalidState <==> old(|ids| == |fetched|) && !Monotonic(fetched)
      ensures fetched == old(fetched) && old(ids) <= ids
    {
      hide First, Level, Frontier, Region, Log2, Bracketed, SortById, NewLo, NewHi;
      if |ids| > |sorted| {
        return Pending;
      }
      AnswersDistinct(fetched, ids, pos, n);
      SortByIdIs(sorted, fetched);
      sorted := SortById(sorted);
      MonotonicBySorting(sorted, fetched);
      if !NeighboursMonotonic(sorted) {
        return InvalidState;
      }
      if isFrontier {
        o := StartFromFrontier();
      } else {
        var last := ids[|ids| - 1];
        ghost var ctr := fetched[|ids| - 1].version;
        assert fetched[|ids| - 1] == VersionedId(last, ctr);
        PathOutside(ids, ctr, version, lo, hi, pos, n);
        o := Advance(last, ctr);
      }
    }

    /** The frontier has been fetched: fix the version and start at its first node carrying it. */
    method StartFromFrontier() returns (o: Outcome)
      requires Valid() && isFrontier && |ids| == |fetched| && IncreasingIds(sorted) && Monotonic(fetched)
      modifies this
      ensures o == Pending ==> Valid() && |fetched| < |ids|
      ensures o == Finished ==> Final()
      ensures o != InvalidState && fetched == old(fetched) && old(ids) <= ids
    {
      hide First, Level, Frontier, Region, Log2, Bracketed, Searching, Monotonic, IncreasingIds, Has, NewLo, NewHi, DistinctIn;
      FrontierFacts(fetched, pos, n);
      FrontierLast(sorted, fetched, n);
      version := sorted[|sorted| - 1].version;
      isFrontier := false;
      var last;
      ghost var at;
      last, at := FindVersion(sorted, version);
      ghost var i := FirstInFetched(sorted, fetched, version, at);
      FrontierStarts(fetched, version, pos, n, i);
      lo, hi := FrontierLo(ids, i, pos), n;
      HasAt(fetched, i);
      NewBounds(last, version, version, lo, hi);
      o := Advance(last, version);
    }

    /** The step that fetched the position found, if it carries the version. */
    method Result() returns (r: Option<(nat, nat)>)
      requires Final()
      ensures r.Some? ==> r.value.0 < |fetched| && fetched[r.value.0] == VersionedId(lo, version) && r.value.1 == lo
      ensures r == None ==> !Has(fetched, lo, version)
    {
      hide Log2;
      var i := 0;
      while i < |sorted| && sorted[i].version < version
        invariant i <= |sorted| && forall k | 0 <= k < i :: sorted[k].version < version
      {
        i := i + 1;
      }
      FirstReaching(sorted, fetched, version, lo, pos, n, i);
      if i == |sorted| || sorted[i].version != version {
        return None;
      }
      var id := sorted[i].id;
      SameMembers(sorted, fetched, sorted[i]);
      ghost var at :| 0 <= at < |fetched| && fetched[at] == sorted[i];
      var j := 0;
      while ids[j] != id
        invariant 0 <= j <= at
        decreases at - j
      {
        j := j + 1;
      }
      return Some((j, id));
    }
  }

  lemma HasGrows(fetched: seq<VersionedId>, e: VersionedId, id: nat, version: nat)
    requires Has(fetched, id, version)
    ensures Has(fetched + [e], id, version)
  {
    var k :| 0 <= k < |fetched| && fetched[k] == VersionedId(id, version);
    assert (fetched + [e])[k] == fetched[k];
  }

  lemma NewBounds(x: nat, ctr: nat, version: nat, lo: nat, hi: nat)
    ensures ctr < version ==> NewLo(x, ctr, version, lo) == x + 1 && NewHi(x, ctr, version, hi) == hi
    ensures ctr >= version ==> NewLo(x, ctr, version, lo) == lo && NewHi(x, ctr, version, hi) == x
  {
  }

  lemma InRegion(x: nat, lo: nat, hi: nat, pos: nat, n: nat)
    requires Region(x, lo, hi, pos, n)
    ensures pos <= lo <= x < hi <= n
  {
  }

  lemma PathOutside(ids: seq<nat>, ctr: nat, version: nat, lo: nat, hi: nat, pos: nat, n: nat)
    requires Searching(ids, lo, hi, pos, n)
    ensures var x := ids[|ids| - 1]; forall i | 0 <= i < |ids| ::
              !(NewLo(x, ctr, version, lo) <= ids[i] < NewHi(x, ctr, version, hi))
  {
    hide Level, Log2;
  }

  /** The counter recorded for an id. */
  method VersionOf(s: seq<VersionedId>, id: nat, ghost fetched: seq<VersionedId>, ghost ctr: nat) returns (v: nat)
    requires IncreasingIds(s) && multiset(s) == multiset(fetched) && Has(fetched, id, ctr)
    ensures v == ctr
  {
    SameMembers(s, fetched, VersionedId(id, ctr));
    ghost var at :| 0 <= at < |s| && s[at] == VersionedId(id, ctr);
    var i := 0;
    while s[i].id != id
      invariant 0 <= i <= at
      decreases at - i
    {
      i := i + 1;
    }
    v := s[i].version;
  }

  /** The first id, in order, that carries the version. */
  method FindVersion(s: seq<VersionedId>, version: nat) returns (id: nat, ghost at: nat)
    requires s != [] && s[|s| - 1].version == version
    ensures at < |s| && s[at] == VersionedId(id, version) && forall k | 0 <= k < at :: s[k].version != version
  {
    var i := 0;
    while s[i].version != version
      invariant 0 <= i < |s| && forall k | 0 <= k < i :: s[k].version != version
      decreases |s| - i
    {
      i := i + 1;
    }
    id, at := s[i].id, i;
  }

  lemma HasAt(fetched: seq<VersionedId>, i: nat)
    requires i < |fetched|
    ensures Has(fetched, fetched[i].id, fetched[i].version)
  {
  }

  lemma FrontierFacts(fetched: seq<VersionedId>, pos: nat, n: nat)
    requires pos < n && Answers(fetched, Frontier(pos, n)) && |fetched| == |Frontier(pos, n)|
    ensures |fetched| >= 1 && fetched[|fetched| - 1].id == n - 1
    ensures forall k | 0 <= k < |fetched| :: fetched[k].id < n
    ensures forall a, b | 0 <= a < b < |fetched| :: fetched[a].id < fetched[b].id
  {
    hide Frontier, Level, Log2;
    FrontierIs(pos, n);
  }

  lemma FrontierLast(s: seq<VersionedId>, fetched: seq<VersionedId>, n: nat)
    requires n >= 1 && IncreasingIds(s) && multiset(s) == multiset(fetched) && |s| == |fetched| >= 1
    requires fetched[|fetched| - 1].id == n - 1 && forall k | 0 <= k < |fetched| :: fetched[k].id < n
    ensures s[|s| - 1].id == n - 1 && Has(fetched, n - 1, s[|s| - 1].version)
  {
    var e, z := fetched[|fetched| - 1], s[|s| - 1];
    SameMembers(s, fetched, e);
    SameMembers(s, fetched, z);
    var a :| 0 <= a < |s| && s[a] == e;
    var b :| 0 <= b < |fetched| && fetched[b] == z;
    assert z == VersionedId(n - 1, z.version);
  }

  lemma FirstInFetched(s: seq<VersionedId>, fetched: seq<VersionedId>, version: nat, at: nat) returns (i: nat)
    requires IncreasingIds(s) && multiset(s) == multiset(fetched)
    requires forall a, b | 0 <= a < b < |fetched| :: fetched[a].id < fetched[b].id
    requires at < |s| && s[at].version == version && forall k | 0 <= k < at :: s[k].version != version
    ensures i < |fetched| && fetched[i] == s[at]
    ensures forall k | 0 <= k < i :: fetched[k].version != version
  {
    SameMembers(s, fetched, s[at]);
    i :| 0 <= i < |fetched| && fetched[i] == s[at];
    forall k | 0 <= k < i
      ensures fetched[k].version != version
    {
      SameMembers(s, fetched, fetched[k]);
      var m :| 0 <= m < |s| && s[m] == fetched[k];
    }
  }

  /** In order, the first entry reaching the version is the one at the meeting point of the bounds. */
  lemma FirstReaching(s: seq<VersionedId>, fetched: seq<VersionedId>, version: nat, lo: nat, pos: nat, n: nat, i: nat)
    requires IncreasingIds(s) && multiset(s) == multiset(fetched) && Monotonic(fetched)
    requires Bracketed(fetched, version, lo, lo, pos, n) && forall k | 0 <= k < |fetched| :: pos <= fetched[k].id < n
    requires i <= |s| && forall k | 0 <= k < i :: s[k].version < version
    requires i < |s| ==> s[i].version >= version
    ensures i < |s| ==> s[i].id == lo
    ensures Has(fetched, lo, version) ==> i < |s| && s[i].version == version
  {
    if lo != pos {
      var k :| 0 <= k < |fetched| && fetched[k].id == lo - 1 && fetched[k].version < version;
      SameMembers(s, fetched, fetched[k]);
      var m :| 0 <= m < |s| && s[m] == fetched[k];
      if i < |s| {
        SameMembers(s, fetched, s[i]);
        var a :| 0 <= a < |fetched| && fetched[a] == s[i];
        assert fetched[a].id >= lo;
      }
    } else if i < |s| {
      SameMembers(s, fetched, s[i]);
      var a :| 0 <= a < |fetched| && fetched[a] == s[i];
    }
    if lo != n {
      var k :| 0 <= k < |fetched| && fetched[k].id == lo && fetched[k].version >= version;
      SameMembers(s, fetched, fetched[k]);
      var m :| 0 <= m < |s| && s[m] == fetched[k];
      assert i <= m;
    }
    if Has(fetched, lo, version) { SameMembers(s, fetched, VersionedId(lo, version)); }
  }

  // ---------------------------------------------------------------------------------------------
  // Running the guide to its end.

  /** Every fetched counter is what the step function answered for that step and id. */
  ghost predicate FetchedBy(fetched: seq<VersionedId>, step: (nat, nat) -> Option<nat>) {
    forall k | 0 <= k < |fetched| :: step(k, fetched[k].id) == Some(fetched[k].version)
  }

  /** Poll and fetch until the search is over.  The step function stands for the caller's closure: it
  answers the k-th request, for a given id, with a counter or a failure. */
  method Consume(guide: ProofGuide, step: (nat, nat) -> Option<nat>)
    returns (answer: Answer, fetched: seq<VersionedId>, ghost version: nat, ghost first: nat)
    requires guide.Valid() && guide.fetched == []
    modifies guide
    ensures |fetched| <= 2 * Log2(guide.n) + 1
    ensures DistinctIds(fetched) && FetchedBy(fetched, step)
    ensures forall k | 0 <= k < |fetched| :: guide.pos <= fetched[k].id < guide.n
    ensures Followed(guide.request, fetched, guide.pos, guide.n)
    ensures answer.Found? || answer.NotFound? ==> Ends(guide.request, fetched, version, first, guide.pos, guide.n)
    ensures answer.Found? ==> answer.index < |fetched| && answer.id == first
    ensures answer.Found? ==> fetched[answer.index] == VersionedId(first, version)
    ensures answer.NotFound? ==> !Has(fetched, first, version)
    ensures answer.NotMonotonic? ==> Complains(guide.request, fetched, guide.pos, guide.n)
    ensures answer.StepFailed? ==>
              exists id: nat :: Asks(guide.request, fetched, guide.pos, guide.n, id) && step(|fetched|, id) == None
  {
    hide First, Level, Frontier, Log2, Searching, Bracketed, Monotonic, IncreasingIds, Wanted, Has, DistinctIn, Asks, Followed;
    FollowedNone(guide.request, guide.pos, guide.n);
    fetched, version, first := [], 0, 0;
    while true
      invariant guide.Valid() && guide.fetched == fetched && FetchedBy(fetched, step)
      invariant Followed(guide.request, fetched, guide.pos, guide.n)
      decreases 2 * Log2(guide.n) + 2 - |fetched|
    {
      AnswersDistinct(guide.fetched, guide.ids, guide.pos, guide.n);
      AnswersInWindow(guide.fetched, guide.ids, guide.pos, guide.n);
      var o := guide.Poll();
      if o == InvalidState {
        return NotMonotonic, fetched, 0, 0;
      }
      if o == Finished {
        var r := guide.Result();
        version, first := guide.version, guide.lo;
        if r == None {
          return NotFound, fetched, version, first;
        }
        return Found(r.value.0, r.value.1), fetched, version, first;
      }
      var id := guide.NextId();
      guide.NextIsAsked();
      var ctr := step(|fetched|, id);
      if ctr == None {
        return StepFailed, fetched, 0, 0;
      }
      guide.Insert(id, ctr.value);
      FollowedGrows(guide.request, fetched, guide.pos, guide.n, VersionedId(id, ctr.value));
      fetched := fetched + [VersionedId(id, ctr.value)];
    }
  }

  lemma FollowedNone(request: Option<nat>, pos: nat, n: nat)
    requires pos < n
    ensures Followed(request, [], pos, n)
  {
  }

  lemma FollowedGrows(request: Option<nat>, fetched: seq<VersionedId>, pos: nat, n: nat, e: VersionedId)
    requires pos < n && Followed(request, fetched, pos, n) && Asks(request, fetched, pos, n, e.id)
    ensures Followed(request, fetched + [e], pos, n)
  {
    hide Asks;
    var f := fetched + [e];
    forall k | 0 <= k < |f|
      ensures AskedAt(request, f, pos, n, k)
    {
      if k < |fetched| {
        assert AskedAt(request, fetched, pos, n, k);
        assert f[..k] == fetched[..k];
      } else {
        assert f[..k] == fetched;
      }
    }
  }

  lemma AnswersInWindow(fetched: seq<VersionedId>, ids: seq<nat>, pos: nat, n: nat)
    requires Answers(fetched, ids) && DistinctIn(ids, pos, n)
    ensures forall k | 0 <= k < |fetched| :: pos <= fetched[k].id < n
  {
  }

  // ---------------------------------------------------------------------------------------------
  // The guide is deterministic: the counters alone decide every request and the outcome.

  lemma WantedIsUnique(request: Option<nat>, v: nat, w: nat, fetched: seq<VersionedId>, n: nat)
    requires n >= 1 && DistinctIds(fetched) && Wanted(request, v, fetched, n) && Wanted(request, w, fetched, n)
    ensures v == w
  {
    if request == None {
      var i :| 0 <= i < |fetched| && fetched[i] == VersionedId(n - 1, v);
      var j :| 0 <= j < |fetched| && fetched[j] == VersionedId(n - 1, w);
    }
  }

  /** What is below a version lies left of what has reached it. */
  lemma BelowIsLeft(fetched: seq<VersionedId>, version: nat, a: nat, b: nat)
    requires Monotonic(fetched) && DistinctIds(fetched) && Below(fetched, a, version) && AtLeast(fetched, b, version)
    ensures a < b
  {
    var i :| 0 <= i < |fetched| && fetched[i].id == a && fetched[i].version < version;
    var j :| 0 <= j < |fetched| && fetched[j].id == b && fetched[j].version >= version;
    assert i != j;
  }

  lemma NotInGap(fetched: seq<VersionedId>, request: Option<nat>, version: nat, lo: nat, hi: nat, pos: nat, n: nat, a: nat)
    requires pos < n && Gap(fetched, request, version, lo, hi, pos, n)
    requires Below(fetched, a, version) || AtLeast(fetched, a, version)
    ensures !(lo <= a < hi)
  {
    hide Wanted, Bracketed;
  }

  lemma GapBounds(fetched: seq<VersionedId>, request: Option<nat>, version: nat, lo: nat, hi: nat, pos: nat, n: nat)
    requires pos < n && Gap(fetched, request, version, lo, hi, pos, n)
    ensures pos <= lo <= hi <= n
    ensures lo == pos || Below(fetched, lo - 1, version)
    ensures hi == n || AtLeast(fetched, hi, version)
  {
    hide Wanted, Below, AtLeast;
  }

  /** A gap that is not empty starts no later than any other bracket. */
  lemma GapStartsFirst(fetched: seq<VersionedId>, request: Option<nat>, version: nat, lo: nat, hi: nat, lo': nat, hi': nat, pos: nat, n: nat)
    requires pos < n && Monotonic(fetched) && DistinctIds(fetched)
    requires Gap(fetched, request, version, lo, hi, pos, n) && lo < hi
    requires Bracketed(fetched, version, lo', hi', pos, n)
    ensures lo' <= lo && hi <= hi'
  {
    hide Wanted, Below, AtLeast, Monotonic, DistinctIds, Gap;
    GapBounds(fetched, request, version, lo, hi, pos, n);
    if lo < lo' {
      NotInGap(fetched, request, version, lo, hi, pos, n, lo' - 1);
      BelowIsLeft(fetched, version, lo' - 1, hi);
    }
    if hi' < hi {
      NotInGap(fetched, request, version, lo, hi, pos, n, hi');
      BelowIsLeft(fetched, version, lo - 1, hi');
    }
  }

  /** After the same answers the guide asks for the same id. */
  lemma AsksOnce(request: Option<nat>, fetched: seq<VersionedId>, pos: nat, n: nat, x: nat, y: nat)
    requires pos < n && DistinctIds(fetched) && Asks(request, fetched, pos, n, x) && Asks(request, fetched, pos, n, y)
    ensures x == y
  {
    hide First, Level, Frontier, Wanted, Bracketed, Monotonic, DistinctIds, IsPeak;
    if !FrontierPhase(request, fetched, pos, n) {
      var v: nat, lo: nat, hi: nat :| PeakOfGap(fetched, request, v, lo, hi, pos, n, x);
      var w: nat, lo': nat, hi': nat :| PeakOfGap(fetched, request, w, lo', hi', pos, n, y);
      WantedIsUnique(request, v, w, fetched, n);
      InRegion(x, lo, hi, pos, n);
      InRegion(y, lo', hi', pos, n);
      GapStartsFirst(fetched, request, v, lo, hi, lo', hi', pos, n);
      GapStartsFirst(fetched, request, v, lo', hi', lo, hi, pos, n);
      PeakIsUnique(x, y, lo, hi);
    }
  }

  /** It does not both ask and stop. */
  lemma AsksOrEnds(request: Option<nat>, fetched: seq<VersionedId>, version: nat, first: nat, pos: nat, n: nat, id: nat)
    requires pos < n && DistinctIds(fetched) && Asks(request, fetched, pos, n, id)
    ensures !Ends(request, fetched, version, first, pos, n) && !Complains(request, fetched, pos, n)
  {
    hide First, Level, Frontier, Wanted, Bracketed, Monotonic, DistinctIds;
    if Ends(request, fetched, version, first, pos, n) {
      var v: nat, lo: nat, hi: nat :| PeakOfGap(fetched, request, v, lo, hi, pos, n, id);
      WantedIsUnique(request, v, version, fetched, n);
      InRegion(id, lo, hi, pos, n);
      GapStartsFirst(fetched, request, v, lo, hi, first, first, pos, n);
    }
  }

  /** It stops in one place. */
  lemma EndsOnce(request: Option<nat>, fetched: seq<VersionedId>, v: nat, first: nat, w: nat, first': nat, pos: nat, n: nat)
    requires pos < n && DistinctIds(fetched)
    requires Ends(request, fetched, v, first, pos, n) && Ends(request, fetched, w, first', pos, n)
    ensures v == w && first == first'
  {
    hide Frontier, Wanted, Monotonic, DistinctIds, Below, AtLeast;
    WantedIsUnique(request, v, w, fetched, n);
    if first < first' { BelowIsLeft(fetched, v, first' - 1, first); }
    if first' < first { BelowIsLeft(fetched, v, first - 1, first'); }
  }

  /** Two searches that are given the same counters fetch the same ids. */
  lemma {:induction false} FetchesTheSame(request: Option<nat>, f: seq<VersionedId>, g: seq<VersionedId>, pos: nat, n: nat, k: nat)
    requires pos < n && Followed(request, f, pos, n) && Followed(request, g, pos, n) && DistinctIds(f)
    requires k <= |f| && k <= |g| && forall i | 0 <= i < k :: f[i].version == g[i].version
    ensures f[..k] == g[..k]
    decreases k
  {
    hide Asks;
    if k > 0 {
      FetchesTheSame(request, f, g, pos, n, k - 1);
      assert AskedAt(request, f, pos, n, k - 1) && AskedAt(request, g, pos, n, k - 1);
      AsksOnce(request, f[..k - 1], pos, n, f[k - 1].id, g[k - 1].id);
      assert f[..k] == f[..k - 1] + [f[k - 1]] && g[..k] == g[..k - 1] + [g[k - 1]];
    }
  }

  // ---------------------------------------------------------------------------------------------
  // What the answer means.

  /** Against any counters: a found position is the first log position of the key, or its immediate
  predecessor was fetched too and carried a strictly smaller version. */
  lemma FoundIsSharp(fetched: seq<VersionedId>, request: Option<nat>, version: nat, first: nat, pos: nat, n: nat)
    requires n >= 1 && DistinctIds(fetched) && Established(fetched, request, version, first, pos, n)
    requires forall k | 0 <= k < |fetched| :: pos <= fetched[k].id < n
    ensures first == pos || Below(fetched, first - 1, version)
    ensures forall k | 0 <= k < |fetched| :: fetched[k].version < version <==> fetched[k].id < first
  {
    if first != pos {
      var m :| 0 <= m < |fetched| && fetched[m].id == first - 1 && fetched[m].version < version;
      assert forall k | 0 <= k < |fetched| && fetched[k].id < first :: k == m || fetched[k].id < fetched[m].id;
    }
    if first != n {
      var m :| 0 <= m < |fetched| && fetched[m].id == first && fetched[m].version >= version;
      assert forall k | 0 <= k < |fetched| && fetched[k].id >= first :: k == m || fetched[m].id < fetched[k].id;
    }
  }

  ghost predicate NonDecreasing(c: nat -> nat, pos: nat, n: nat) {
    forall i, j | pos <= i <= j < n :: c(i) <= c(j)
  }

  ghost predicate Agrees(fetched: seq<VersionedId>, c: nat -> nat) {
    forall k | 0 <= k < |fetched| :: fetched[k].version == c(fetched[k].id)
  }

  /** Against a log whose counters never fall: the bounds meet at the leftmost position whose counter
  has reached the version, so the answer is the leftmost position carrying it, or that none does. */
  lemma FirstIsLeftmost(fetched: seq<VersionedId>, request: Option<nat>, version: nat, first: nat, pos: nat, n: nat, c: nat -> nat)
    requires pos < n && Established(fetched, request, version, first, pos, n)
    requires NonDecreasing(c, pos, n) && Agrees(fetched, c)
    ensures pos <= first <= n
    ensures forall y | pos <= y < n :: c(y) >= version <==> y >= first
    ensures version == if request.Some? then request.value else c(n - 1)
    ensures request == None ==> first < n && c(first) == version
  {
    if first != pos {
      var k :| 0 <= k < |fetched| && fetched[k].id == first - 1 && fetched[k].version < version;
      assert c(first - 1) < version;
    }
    if first != n {
      var k :| 0 <= k < |fetched| && fetched[k].id == first && fetched[k].version >= version;
      assert c(first) >= version;
    }
    if request == None {
      var k :| 0 <= k < |fetched| && fetched[k] == VersionedId(n - 1, version);
      assert c(n - 1) == version;
    }
  }

  /** Such a log never makes the guide complain. */
  lemma HonestIsMonotonic(fetched: seq<VersionedId>, pos: nat, n: nat, c: nat -> nat)
    requires NonDecreasing(c, pos, n) && Agrees(fetched, c) && forall k | 0 <= k < |fetched| :: pos <= fetched[k].id < n
    ensures Monotonic(fetched)
  {
    forall i, j | 0 <= i < |fetched| && 0 <= j < |fetched| && fetched[i].id < fetched[j].id
      ensures fetched[i].version <= fetched[j].version
    {
      assert c(fetched[i].id) <= c(fetched[j].id);
    }
  }

  method NewGuide(request: Option<nat>, pos: u64, n: u64) returns (guide: ProofGuide)
    requires pos < n <= MAX_TREE_SIZE
    ensures fresh(guide) && guide.Valid() && guide.fetched == []
    ensures guide.pos == pos && guide.n == n && guide.request == request
  {
    if request == None {
      guide := new ProofGuide.ForMostRecent(pos, n);
    } else {
      guide := new ProofGuide.ForVersion(request.value, pos, n);
    }
  }

  /** A whole search over counters that never fall, in both modes: the answer is the leftmost position
  carrying the version asked for, or the newest version, with the step that fetched it. */
  method SearchHonest(request: Option<nat>, pos: u64, n: u64, c: nat -> nat)
    returns (answer: Answer, fetched: seq<VersionedId>)
    requires pos < n <= MAX_TREE_SIZE && NonDecreasing(c, pos, n)
    ensures var v := if request.Some? then request.value else c(n - 1);
            && (answer.Found? <==> exists y | pos <= y < n :: c(y) == v)
            && (answer.NotFound? <==> forall y | pos <= y < n :: c(y) != v)
            && (answer.Found? ==> pos <= answer.id < n && c(answer.id) == v)
            && (answer.Found? ==> forall y | pos <= y < answer.id :: c(y) != v)
            && (answer.Found? ==> answer.index < |fetched| && fetched[answer.index].id == answer.id)
    ensures |fetched| <= 2 * Log2(n) + 1 && DistinctIds(fetched)
  {
    hide Monotonic, FetchedBy, Log2, DistinctIds;
    var guide := NewGuide(request, pos, n);
    var step := (k: nat, id: nat) => Some(c(id));
    ghost var version: nat, first: nat;
    answer, fetched, version, first := Consume(guide, step);
    assert Agrees(fetched, c) by { FetchedAgrees(fetched, step, c); }
    HonestIsMonotonic(fetched, pos, n, c);
    FirstIsLeftmost(fetched, request, version, first, pos, n, c);
    if answer.NotFound? && first < n { NotFoundMeansNone(fetched, version, first, pos, n, c); }
  }

  lemma FetchedAgrees(fetched: seq<VersionedId>, step: (nat, nat) -> Option<nat>, c: nat -> nat)
    requires FetchedBy(fetched, step) && forall k: nat, id: nat :: step(k, id) == Some(c(id))
    ensures Agrees(fetched, c)
  {
  }

  lemma NotFoundMeansNone(fetched: seq<VersionedId>, version: nat, first: nat, pos: nat, n: nat, c: nat -> nat)
    requires first < n && Bracketed(fetched, version, first, first, pos, n) && Agrees(fetched, c)
    requires !Has(fetched, first, version)
    ensures c(first) > version
  {
    var k :| 0 <= k < |fetched| && fetched[k].id == first && fetched[k].version >= version;
    assert fetched[k] == VersionedId(first, fetched[k].version);
  }
}
