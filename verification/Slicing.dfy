/** The backfill run again and again in slices of at most `limit` targets. Every
    call starts at the first candidate, and targets that got no owner stay
    candidates: when the slices come to an end, and when they stand still. */
module Slicing {
  import opened Model
  import opened Registry
  import opened Aggregates
  import opened Ordering
  import opened Engine
  import opened Invariants
  import opened Backfilling

  /** The table after one call with a limit. */
  function Slice(env: Env, c: Collation, m: Table, n: nat, ttype: string, batch: nat, limit: nat): Table
    requires batch >= 1
  {
    Stamp(env, SetOfTargets(Visited(env, c, m, n, ttype, batch, Some(limit))), m)
  }

  /** The table after `k` of them, one after the other. */
  function Slices(env: Env, c: Collation, m: Table, n: nat, ttype: string, batch: nat, limit: nat, k: nat): Table
    requires batch >= 1
  {
    if k == 0 then m else Slice(env, c, Slices(env, c, m, n, ttype, batch, limit, k - 1), n, ttype, batch, limit)
  }

  // ----- how far one call can get -----

  /** The least whole number of pages that is no less than the limit. */
  function Reach(batch: nat, limit: nat): (w: nat)
    requires batch >= 1
    ensures w >= limit && w >= batch && (limit >= 1 ==> w < limit + batch)
    decreases limit
  {
    if limit <= batch then batch else batch + Reach(batch, limit - batch)
  }

  lemma {:induction false} ReachIsWhole(batch: nat, limit: nat)
    requires batch >= 1
    ensures WholePages(batch, Reach(batch, limit))
  {
    if limit <= batch {
      assert WholePages(batch, 0);
    } else {
      ReachIsWhole(batch, limit - batch);
    }
  }

  lemma {:induction false} ReachIsLeast(batch: nat, limit: nat, k: nat)
    requires batch >= 1 && 1 <= limit <= k && WholePages(batch, k)
    ensures Reach(batch, limit) <= k
    decreases limit
  {
    if limit > batch { ReachIsLeast(batch, limit - batch, k - batch); }
  }

  /** A call never visits more. */
  lemma StopsByReach(env: Env, all: seq<Target>, batch: nat, limit: nat)
    requires batch >= 1 && limit >= 1
    ensures StopAt(env, all, batch, Some(limit), 0) <= Reach(batch, limit)
  {
    var w := Reach(batch, limit);
    ReachIsWhole(batch, limit);
    StopsUncut(env, all, batch, Some(limit), 0);
    if StopAt(env, all, batch, Some(limit), 0) > w { assert Cut(env, all, batch, Some(limit), w); }
  }

  /** With fewer unresolvable targets in front than that, the first resolvable one
      is visited. */
  lemma FirstIsVisited(env: Env, all: seq<Target>, batch: nat, limit: nat, u: nat)
    requires batch >= 1 && limit >= 1 && u < |all| && u < Reach(batch, limit)
    requires forall i :: 0 <= i < u ==> !Resolves(env, all[i])
    ensures u < StopAt(env, all, batch, Some(limit), 0)
  {
    var k := StopAt(env, all, batch, Some(limit), 0);
    StopsUncut(env, all, batch, Some(limit), 0);
    if k <= u {
      assert Cut(env, all, batch, Some(limit), k);
      ReachIsLeast(batch, limit, k);
    }
  }

  // ----- the candidates after a call -----

  lemma CandidateIff(c: Collation, m: Table, n: nat, ttype: string, t: Target)
    ensures t in Candidates(c, m, n, ttype) <==>
              (ttype == "" || t.ttype == ttype) && exists id: nat :: id < n && id in m && m[id].ownerKey == "" && m[id].target == t
  {
    SortedMembers(c, m, n, Unstamped(c, ttype, None), t);
    if (ttype == "" || t.ttype == ttype) && exists id: nat :: id < n && id in m && m[id].ownerKey == "" && m[id].target == t {
      var id: nat :| id < n && id in m && m[id].ownerKey == "" && m[id].target == t;
      assert Picks(m, id, Unstamped(c, ttype, None));
    }
  }

  /** Stamping takes away exactly the candidates that were reached and resolve. */
  lemma StampedCandidates(env: Env, c: Collation, m: Table, n: nat, ttype: string, done: set<Target>, t: Target)
    ensures t in Candidates(c, Stamp(env, done, m), n, ttype) <==>
              t in Candidates(c, m, n, ttype) && !(t in done && Resolves(env, t))
  {
    var m' := Stamp(env, done, m);
    CandidateIff(c, m, n, ttype, t);
    CandidateIff(c, m', n, ttype, t);
    ResolvedKeyIsText(env, t);
    if t in Candidates(c, m, n, ttype) && !(t in done && Resolves(env, t)) {
      var id: nat :| id < n && id in m && m[id].ownerKey == "" && m[id].target == t;
      assert id in m' && m'[id] == m[id];
    }
    if t in Candidates(c, m', n, ttype) {
      var id: nat :| id < n && id in m' && m'[id].ownerKey == "" && m'[id].target == t;
      assert id in m && m[id].ownerKey == "" && m[id].target == t;
    }
  }

  // ----- what stands in the way -----

  /** The targets ahead of `t` that no call can take away. */
  ghost function Ahead(env: Env, c: Collation, all: seq<Target>, t: Target): set<Target> {
    set u | u in all && !Resolves(env, u) && Before(c, u, t)
  }

  /** Every target that resolves has fewer of them ahead than one call reaches. */
  ghost predicate WithinReach(env: Env, c: Collation, all: seq<Target>, batch: nat, limit: nat)
    requires batch >= 1
  {
    forall t :: t in all && Resolves(env, t) ==> |Ahead(env, c, all, t)| < Reach(batch, limit)
  }

  lemma SameAhead(env: Env, c: Collation, m: Table, n: nat, ttype: string, done: set<Target>, t: Target)
    ensures Ahead(env, c, Candidates(c, Stamp(env, done, m), n, ttype), t) == Ahead(env, c, Candidates(c, m, n, ttype), t)
  {
    forall u
      ensures u in Ahead(env, c, Candidates(c, Stamp(env, done, m), n, ttype), t) <==>
                u in Ahead(env, c, Candidates(c, m, n, ttype), t)
    {
      StampedCandidates(env, c, m, n, ttype, done, u);
    }
  }

  lemma {:induction false} DistinctCount(s: seq<Target>)
    requires forall i, j :: 0 <= i < j < |s| ==> s[i] != s[j]
    ensures |SetOfTargets(s)| == |s|
  {
    if s == [] {
      assert SetOfTargets(s) == {};
    } else {
      var k := |s| - 1;
      DistinctCount(s[..k]);
      OneMoreInSet(s, k);
    }
  }

  lemma FirstsAreDistinct(c: Collation, all: seq<Target>, u: nat)
    requires Lawful(c) && Increasing(c, all) && u <= |all|
    ensures |SetOfTargets(all[..u])| == u
  {
    forall i, j | 0 <= i < j < u
      ensures all[..u][i] != all[..u][j]
    {
      BeforeIsStrict(c, all[i], all[j]);
    }
    DistinctCount(all[..u]);
  }

  /** No more than its place are ahead of a target, and as many when none before it
      resolves. */
  lemma AheadAtMost(env: Env, c: Collation, all: seq<Target>, u: nat)
    requires Lawful(c) && Increasing(c, all) && u < |all|
    ensures |Ahead(env, c, all, all[u])| <= u
  {
    FirstsAreDistinct(c, all, u);
    forall t | t in Ahead(env, c, all, all[u])
      ensures t in SetOfTargets(all[..u])
    {
      var i :| 0 <= i < |all| && all[i] == t;
      if i > u { BeforeIsStrict(c, all[u], all[i]); }
      if i == u { BeforeIsStrict(c, t, all[u]); }
    }
    SubsetIsNoLarger(Ahead(env, c, all, all[u]), SetOfTargets(all[..u]));
  }

  lemma AheadAtLeast(env: Env, c: Collation, all: seq<Target>, u: nat)
    requires Lawful(c) && Increasing(c, all) && u < |all|
    requires forall i :: 0 <= i < u ==> !Resolves(env, all[i])
    ensures |Ahead(env, c, all, all[u])| >= u
  {
    FirstsAreDistinct(c, all, u);
    SubsetIsNoLarger(SetOfTargets(all[..u]), Ahead(env, c, all, all[u]));
  }

  // ----- a call makes headway or cannot -----

  ghost function Resolvable(env: Env, all: seq<Target>): set<Target> {
    set t | t in all && Resolves(env, t)
  }

  lemma {:induction false} FirstResolvable(env: Env, all: seq<Target>) returns (u: nat)
    requires Resolvable(env, all) != {}
    ensures u < |all| && Resolves(env, all[u]) && forall i :: 0 <= i < u ==> !Resolves(env, all[i])
  {
    if Resolves(env, all[0]) {
      u := 0;
    } else {
      assert forall t :: t in all <==> t == all[0] || t in all[1..];
      var t :| t in Resolvable(env, all);
      assert t in Resolvable(env, all[1..]);
      u := FirstResolvable(env, all[1..]);
      u := u + 1;
    }
  }

  /** Within reach, a call takes a resolvable candidate away and stays so. */
  lemma SliceMakesHeadway(env: Env, c: Collation, m: Table, n: nat, ttype: string, batch: nat, limit: nat)
    requires Lawful(c) && batch >= 1 && limit >= 1
    requires WithinReach(env, c, Candidates(c, m, n, ttype), batch, limit)
    ensures var all, all' := Candidates(c, m, n, ttype), Candidates(c, Slice(env, c, m, n, ttype, batch, limit), n, ttype);
            && WithinReach(env, c, all', batch, limit)
            && (Resolvable(env, all) != {} ==> |Resolvable(env, all')| < |Resolvable(env, all)|)
            && Resolvable(env, all') <= Resolvable(env, all)
  {
    var all := Candidates(c, m, n, ttype);
    var done := SetOfTargets(Visited(env, c, m, n, ttype, batch, Some(limit)));
    var all' := Candidates(c, Stamp(env, done, m), n, ttype);
    forall t
      ensures t in all' <==> t in all && !(t in done && Resolves(env, t))
      ensures Ahead(env, c, all', t) == Ahead(env, c, all, t)
    {
      StampedCandidates(env, c, m, n, ttype, done, t);
      SameAhead(env, c, m, n, ttype, done, t);
    }
    if Resolvable(env, all) != {} {
      var t := ReachedOne(env, c, m, n, ttype, batch, limit);
      assert Resolvable(env, all') <= Resolvable(env, all) - {t};
      SubsetIsNoLarger(Resolvable(env, all'), Resolvable(env, all) - {t});
    }
  }

  lemma ReachedOne(env: Env, c: Collation, m: Table, n: nat, ttype: string, batch: nat, limit: nat) returns (t: Target)
    requires Lawful(c) && batch >= 1 && limit >= 1
    requires WithinReach(env, c, Candidates(c, m, n, ttype), batch, limit)
    requires Resolvable(env, Candidates(c, m, n, ttype)) != {}
    ensures t in Resolvable(env, Candidates(c, m, n, ttype))
    ensures t in SetOfTargets(Visited(env, c, m, n, ttype, batch, Some(limit)))
  {
    var all := Candidates(c, m, n, ttype);
    SortedIncreasing(c, m, n, Unstamped(c, ttype, None));
    var u := FirstResolvable(env, all);
    AheadAtLeast(env, c, all, u);
    FirstIsVisited(env, all, batch, limit, u);
    t := all[u];
    assert Visited(env, c, m, n, ttype, batch, Some(limit))[u] == t;
  }

  /** Out of reach, a target is never visited, and never gets nearer. */
  lemma SliceMisses(env: Env, c: Collation, m: Table, n: nat, ttype: string, batch: nat, limit: nat, t: Target)
    requires Lawful(c) && batch >= 1 && limit >= 1
    requires t in Candidates(c, m, n, ttype) && |Ahead(env, c, Candidates(c, m, n, ttype), t)| >= Reach(batch, limit)
    ensures var all' := Candidates(c, Slice(env, c, m, n, ttype, batch, limit), n, ttype);
            t in all' && |Ahead(env, c, all', t)| >= Reach(batch, limit)
  {
    var all, visited := Candidates(c, m, n, ttype), Visited(env, c, m, n, ttype, batch, Some(limit));
    SortedIncreasing(c, m, n, Unstamped(c, ttype, None));
    StopsByReach(env, all, batch, limit);
    if t in visited {
      var i :| 0 <= i < |visited| && visited[i] == t;
      AheadAtMost(env, c, all, i);
    }
    StampedCandidates(env, c, m, n, ttype, SetOfTargets(visited), t);
    SameAhead(env, c, m, n, ttype, SetOfTargets(visited), t);
  }

  // ----- any number of calls -----

  /** A full run from `m'` ends where one from `m` does, over the same rows. */
  ghost predicate OnTheWay(env: Env, ttype: string, m: Table, m': Table) {
    StampEvery(env, ttype, m') == StampEvery(env, ttype, m) && m'.Keys == m.Keys
  }

  lemma OnTheWayOn(env: Env, ttype: string, m: Table, m1: Table, m2: Table)
    requires OnTheWay(env, ttype, m, m1) && OnTheWay(env, ttype, m1, m2)
    ensures OnTheWay(env, ttype, m, m2)
  {
  }

  lemma SliceIsOnTheWay(env: Env, c: Collation, m: Table, n: nat, ttype: string, batch: nat, limit: nat)
    requires batch >= 1
    ensures OnTheWay(env, ttype, m, Slice(env, c, m, n, ttype, batch, limit))
  {
    var all := Candidates(c, m, n, ttype);
    ResumedRunIsOneRun(env, c, m, n, ttype, StopAt(env, all, batch, Some(limit), 0));
  }

  lemma {:induction false} SlicesAreOnTheWay(env: Env, c: Collation, m: Table, n: nat, ttype: string, batch: nat, limit: nat, k: nat)
    requires batch >= 1
    ensures OnTheWay(env, ttype, m, Slices(env, c, m, n, ttype, batch, limit, k))
  {
    if k > 0 {
      var before := Slices(env, c, m, n, ttype, batch, limit, k - 1);
      SlicesAreOnTheWay(env, c, m, n, ttype, batch, limit, k - 1);
      SliceIsOnTheWay(env, c, before, n, ttype, batch, limit);
      OnTheWayOn(env, ttype, m, before, Slice(env, c, before, n, ttype, batch, limit));
    }
  }

  /** With no resolvable candidate left the full run has nothing to do. */
  lemma NothingLeft(env: Env, c: Collation, m: Table, n: nat, ttype: string)
    requires Resolvable(env, Candidates(c, m, n, ttype)) == {} && forall id :: id in m ==> id < n
    ensures StampEvery(env, ttype, m) == m
  {
    forall id | id in m && m[id].ownerKey == "" && (ttype == "" || m[id].target.ttype == ttype)
      ensures !Resolves(env, m[id].target)
    {
      IsCandidate(c, m, n, ttype, id);
      assert m[id].target !in Resolvable(env, Candidates(c, m, n, ttype));
    }
  }

  /** After a full run no candidate resolves. */
  lemma FullRunLeavesNone(env: Env, c: Collation, m: Table, n: nat, ttype: string, t: Target)
    ensures t in Candidates(c, StampEvery(env, ttype, m), n, ttype) ==> !Resolves(env, t)
  {
    CandidateIff(c, StampEvery(env, ttype, m), n, ttype, t);
    ResolvedKeyIsText(env, t);
  }

  lemma {:induction false} SlicesMakeHeadway(env: Env, c: Collation, m: Table, n: nat, ttype: string, batch: nat, limit: nat, k: nat)
    requires Lawful(c) && batch >= 1 && limit >= 1
    requires WithinReach(env, c, Candidates(c, m, n, ttype), batch, limit)
    ensures var all' := Candidates(c, Slices(env, c, m, n, ttype, batch, limit, k), n, ttype);
            && WithinReach(env, c, all', batch, limit)
            && (|Resolvable(env, all')| == 0 || |Resolvable(env, all')| + k <= |Resolvable(env, Candidates(c, m, n, ttype))|)
  {
    if k > 0 {
      SlicesMakeHeadway(env, c, m, n, ttype, batch, limit, k - 1);
      SliceMakesHeadway(env, c, Slices(env, c, m, n, ttype, batch, limit, k - 1), n, ttype, batch, limit);
    }
  }

  lemma {:induction false} SlicesMiss(env: Env, c: Collation, m: Table, n: nat, ttype: string, batch: nat, limit: nat, k: nat, t: Target)
    requires Lawful(c) && batch >= 1 && limit >= 1
    requires t in Candidates(c, m, n, ttype) && |Ahead(env, c, Candidates(c, m, n, ttype), t)| >= Reach(batch, limit)
    ensures var all' := Candidates(c, Slices(env, c, m, n, ttype, batch, limit, k), n, ttype);
            t in all' && |Ahead(env, c, all', t)| >= Reach(batch, limit)
  {
    if k > 0 {
      SlicesMiss(env, c, m, n, ttype, batch, limit, k - 1, t);
      SliceMisses(env, c, Slices(env, c, m, n, ttype, batch, limit, k - 1), n, ttype, batch, limit, t);
    }
  }

  lemma EnoughSlicesFinish(env: Env, c: Collation, m: Table, n: nat, ttype: string, batch: nat, limit: nat, k: nat)
    requires Lawful(c) && batch >= 1 && limit >= 1 && forall id :: id in m ==> id < n
    requires WithinReach(env, c, Candidates(c, m, n, ttype), batch, limit)
    requires k >= |Resolvable(env, Candidates(c, m, n, ttype))|
    ensures Slices(env, c, m, n, ttype, batch, limit, k) == StampEvery(env, ttype, m)
  {
    var after := Slices(env, c, m, n, ttype, batch, limit, k);
    SlicesMakeHeadway(env, c, m, n, ttype, batch, limit, k);
    SlicesAreOnTheWay(env, c, m, n, ttype, batch, limit, k);
    NothingLeft(env, c, after, n, ttype);
  }

  /** Bounded slices, repeated, end with the table of one full run if and only if
      every candidate that resolves has fewer unresolvable ones ahead of it than
      the least whole number of pages not below the limit. As many slices as
      there are resolvable candidates are then enough; otherwise some target is
      never reached, however often the call is made. */
  lemma SlicesFinishIff(env: Env, c: Collation, m: Table, n: nat, ttype: string, batch: nat, limit: nat)
    requires Lawful(c) && batch >= 1 && limit >= 1 && forall id :: id in m ==> id < n
    ensures (exists k :: Slices(env, c, m, n, ttype, batch, limit, k) == StampEvery(env, ttype, m))
            <==> WithinReach(env, c, Candidates(c, m, n, ttype), batch, limit)
    ensures WithinReach(env, c, Candidates(c, m, n, ttype), batch, limit) ==>
              forall k :: k >= |Resolvable(env, Candidates(c, m, n, ttype))| ==>
                Slices(env, c, m, n, ttype, batch, limit, k) == StampEvery(env, ttype, m)
  {
    var all := Candidates(c, m, n, ttype);
    if WithinReach(env, c, all, batch, limit) {
      forall k | k >= |Resolvable(env, all)|
        ensures Slices(env, c, m, n, ttype, batch, limit, k) == StampEvery(env, ttype, m)
      {
        EnoughSlicesFinish(env, c, m, n, ttype, batch, limit, k);
      }
      assert Slices(env, c, m, n, ttype, batch, limit, |Resolvable(env, all)|) == StampEvery(env, ttype, m);
    } else {
      var t :| t in all && Resolves(env, t) && |Ahead(env, c, all, t)| >= Reach(batch, limit);
      forall k
        ensures Slices(env, c, m, n, ttype, batch, limit, k) != StampEvery(env, ttype, m)
      {
        SlicesMiss(env, c, m, n, ttype, batch, limit, k, t);
        FullRunLeavesNone(env, c, m, n, ttype, t);
      }
    }
  }
}
