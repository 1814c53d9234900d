/** The owner-key backfill: which targets a walk visits, where it stops, what it
    counts and what it leaves in the table. */
module Backfilling {
  import opened Model
  import opened Registry
  import opened Rounding
  import opened Aggregates
  import opened Ordering
  import opened Engine
  import opened Invariants

  const BACKFILL_BATCH_SIZE := 500

  datatype Stats = Stats(
    targets: nat,
    stampedTargets: nat,
    stampedRows: nat,
    unresolved: nat,
    noResolver: nat)

  function Batch(batchSize: Option<int>): nat
    ensures Batch(batchSize) >= 1
    ensures batchSize == None || batchSize == Some(0) ==> Batch(batchSize) == BACKFILL_BATCH_SIZE
    ensures batchSize.Some? && batchSize.value >= 1 ==> Batch(batchSize) == batchSize.value
    ensures batchSize.Some? && batchSize.value < 0 ==> Batch(batchSize) == 1
  {
    var asked := if batchSize == None || batchSize == Some(0) then BACKFILL_BATCH_SIZE else batchSize.value;
    if asked < 1 then 1 else asked
  }

  /** None and zero are no limit. */
  predicate LimitHit(limit: Option<int>, targets: nat) {
    limit.Some? && limit.value != 0 && targets >= limit.value
  }

  predicate TypeMatches(ttype: string, t: Target) {
    ttype == "" || t.ttype == ttype
  }

  /** Candidate rows past the keyset cursor. */
  function Unstamped(c: Collation, ttype: string, last: Option<Target>): Where {
    (r: Review) => r.ownerKey == "" && TypeMatches(ttype, r.target) && (last == None || Before(c, last.value, r.target))
  }

  function UnstampedOf(t: Target): Where {
    (r: Review) => r.ownerKey == "" && r.target == t
  }

  function AnyUnstamped(): Where {
    (r: Review) => r.ownerKey == ""
  }

  /** Every distinct candidate target, in walking order. */
  function Candidates(c: Collation, m: Table, n: nat, ttype: string): seq<Target> {
    SortedTargets(c, m, n, Unstamped(c, ttype, None))
  }

  predicate Resolves(env: Env, t: Target) {
    Resolve(env, t).Owner?
  }

  function SetOfTargets(s: seq<Target>): set<Target> {
    set t | t in s
  }

  // ----- what a walk over given targets amounts to -----

  function Visit(env: Env, m: Table, n: nat, stats: Stats, t: Target): Stats {
    var seen := stats.(targets := stats.targets + 1);
    match Resolve(env, t)
    case NoResolver => seen.(noResolver := seen.noResolver + 1)
    case Unresolved => seen.(unresolved := seen.unresolved + 1)
    case Owner(_) => seen.(stampedRows := seen.stampedRows + CountOf(m, n, UnstampedOf(t)),
                           stampedTargets := seen.stampedTargets + 1)
  }

  function StatsOf(env: Env, m: Table, n: nat, s: seq<Target>): Stats {
    if s == [] then Stats(0, 0, 0, 0, 0)
    else Visit(env, m, n, StatsOf(env, m, n, s[..|s| - 1]), s[|s| - 1])
  }

  /** `k` targets fill whole pages. */
  predicate WholePages(batch: nat, k: nat)
    requires batch >= 1
  {
    if k < batch then k == 0 else WholePages(batch, k - batch)
  }

  /** The walk stops after its k-th target: the limit is reached, and the target
      was stamped or ended its page. An unresolved target in mid-page skips the
      test. */
  predicate Cut(env: Env, all: seq<Target>, batch: nat, limit: Option<int>, k: nat)
    requires batch >= 1 && k <= |all|
  {
    k > 0 && LimitHit(limit, k) && (Resolves(env, all[k - 1]) || WholePages(batch, k))
  }

  function StopAt(env: Env, all: seq<Target>, batch: nat, limit: Option<int>, k: nat): nat
    requires batch >= 1 && k <= |all|
    ensures k <= StopAt(env, all, batch, limit, k) <= |all|
    decreases |all| - k
  {
    if k == |all| || Cut(env, all, batch, limit, k) then k else StopAt(env, all, batch, limit, k + 1)
  }

  /** The targets a call visits, whether or not it writes. */
  function Visited(env: Env, c: Collation, m: Table, n: nat, ttype: string, batch: nat, limit: Option<int>): seq<Target>
    requires batch >= 1
  {
    var all := Candidates(c, m, n, ttype);
    all[..StopAt(env, all, batch, limit, 0)]
  }

  // ----- stamping does not move the window -----

  /** The targets past the cursor are the unvisited ones, stamped rows or not. */
  lemma RestOfCandidates(env: Env, c: Collation, m: Table, m': Table, n: nat, ttype: string, k: nat)
    requires Lawful(c)
    requires var all := Candidates(c, m, n, ttype);
             k <= |all| && (m' == m || m' == Stamp(env, SetOfTargets(all[..k]), m))
    ensures var all := Candidates(c, m, n, ttype);
            var last := if k == 0 then None else Some(all[k - 1]);
            SortedTargets(c, m', n, Unstamped(c, ttype, last)) == all[k..]
  {
    var all := Candidates(c, m, n, ttype);
    var last := if k == 0 then None else Some(all[k - 1]);
    var rest := SortedTargets(c, m', n, Unstamped(c, ttype, last));
    SortedIncreasing(c, m, n, Unstamped(c, ttype, None));
    SortedIncreasing(c, m', n, Unstamped(c, ttype, last));
    forall t
      ensures t in rest <==> t in all[k..]
    {
      SortedMembers(c, m', n, Unstamped(c, ttype, last), t);
      SortedMembers(c, m, n, Unstamped(c, ttype, None), t);
      if k > 0 { PastIsRest(c, all, k, t); }
      StillCandidate(env, c, m, m', n, ttype, all, k, t);
    }
    IncreasingIsUnique(c, rest, all[k..]);
  }

  lemma StillCandidate(env: Env, c: Collation, m: Table, m': Table, n: nat, ttype: string, all: seq<Target>, k: nat, t: Target)
    requires Lawful(c) && Increasing(c, all) && k <= |all|
    requires m' == m || m' == Stamp(env, SetOfTargets(all[..k]), m)
    ensures var last := if k == 0 then None else Some(all[k - 1]);
            Chosen(m', n, Unstamped(c, ttype, last), t) <==>
              Chosen(m, n, Unstamped(c, ttype, None), t) && (last == None || Before(c, last.value, t))
  {
    var last := if k == 0 then None else Some(all[k - 1]);
    if last == None || Before(c, last.value, t) {
      BehindTheCursor(c, all, k, t);
      forall id: nat | id in m && m[id].target == t
        ensures id in m' && m'[id] == m[id]
      {
      }
    }
    if Chosen(m, n, Unstamped(c, ttype, None), t) && (last == None || Before(c, last.value, t)) {
      var id: nat :| id < n && Picks(m, id, Unstamped(c, ttype, None)) && m[id].target == t;
      assert Picks(m', id, Unstamped(c, ttype, last));
    }
    if Chosen(m', n, Unstamped(c, ttype, last), t) {
      var id: nat :| id < n && Picks(m', id, Unstamped(c, ttype, last)) && m'[id].target == t;
      assert Picks(m, id, Unstamped(c, ttype, None));
    }
  }

  lemma BehindTheCursor(c: Collation, all: seq<Target>, k: nat, t: Target)
    requires Lawful(c) && Increasing(c, all) && k <= |all|
    requires k == 0 || Before(c, all[k - 1], t)
    ensures t !in SetOfTargets(all[..k])
  {
    if t in all[..k] {
      var i :| 0 <= i < k && all[i] == t;
      if i < k - 1 { BeforeIsStrict(c, all[i], all[k - 1]); } else { BeforeIsStrict(c, all[k - 1], t); }
    }
  }

  /** Stamping one more target. */
  lemma StampMore(env: Env, done: set<Target>, t: Target, m: Table)
    ensures Stamp(env, {t}, Stamp(env, done, m)) == Stamp(env, done + {t}, m)
  {
  }

  /** A target not yet visited still has all its unstamped rows. */
  lemma UntouchedCount(env: Env, done: set<Target>, t: Target, m: Table, n: nat)
    requires t !in done
    ensures CountOf(Stamp(env, done, m), n, UnstampedOf(t)) == CountOf(m, n, UnstampedOf(t))
  {
    TallySame(Stamp(env, done, m), m, n, UnstampedOf(t), UnstampedOf(t));
  }

  // ----- one step of the walk -----

  /** So many targets on: the counts are those of the first candidates and so,
      unless it is a dry run, is the table. */
  ghost predicate Walked(env: Env, m: Table, n: nat, all: seq<Target>, dryRun: bool, stats: Stats, now: Table) {
    && stats.targets <= |all|
    && stats == StatsOf(env, m, n, all[..stats.targets])
    && now == if dryRun then m else Stamp(env, SetOfTargets(all[..stats.targets]), m)
  }

  lemma NotYetVisited(c: Collation, all: seq<Target>, k: nat)
    requires Lawful(c) && Increasing(c, all) && k < |all|
    ensures all[k] !in SetOfTargets(all[..k])
  {
    forall i | 0 <= i < k
      ensures all[i] != all[k]
    {
      BeforeIsStrict(c, all[i], all[k]);
    }
  }

  lemma VisitNext(env: Env, c: Collation, m: Table, n: nat, all: seq<Target>, dryRun: bool,
                  stats: Stats, now: Table, stats': Stats, now': Table)
    requires Lawful(c) && Increasing(c, all)
    requires Walked(env, m, n, all, dryRun, stats, now) && stats.targets < |all|
    requires stats' == Visit(env, now, n, stats, all[stats.targets])
    requires now' == if dryRun then now else Stamp(env, {all[stats.targets]}, now)
    ensures stats'.targets == stats.targets + 1 && Walked(env, m, n, all, dryRun, stats', now')
  {
    var k := stats.targets;
    NotYetVisited(c, all, k);
    UntouchedCount(env, SetOfTargets(all[..k]), all[k], m, n);
    SameVisit(env, m, now, n, stats, all[k]);
    StatsOfNext(env, m, n, all, k);
    StampNext(env, m, all, k);
  }

  lemma SameVisit(env: Env, m: Table, now: Table, n: nat, stats: Stats, t: Target)
    requires CountOf(now, n, UnstampedOf(t)) == CountOf(m, n, UnstampedOf(t))
    ensures Visit(env, now, n, stats, t) == Visit(env, m, n, stats, t)
    ensures Visit(env, now, n, stats, t).targets == stats.targets + 1
  {
  }

  lemma StatsOfNext(env: Env, m: Table, n: nat, all: seq<Target>, k: nat)
    requires k < |all|
    ensures StatsOf(env, m, n, all[..k + 1]) == Visit(env, m, n, StatsOf(env, m, n, all[..k]), all[k])
  {
    assert all[..k + 1][..k] == all[..k];
  }

  lemma StampNext(env: Env, m: Table, all: seq<Target>, k: nat)
    requires k < |all|
    ensures Stamp(env, {all[k]}, Stamp(env, SetOfTargets(all[..k]), m)) == Stamp(env, SetOfTargets(all[..k + 1]), m)
  {
    assert all[..k + 1] == all[..k] + [all[k]];
    assert SetOfTargets(all[..k + 1]) == SetOfTargets(all[..k]) + {all[k]};
    StampMore(env, SetOfTargets(all[..k]), all[k], m);
  }

  lemma WalkedNothing(env: Env, m: Table, n: nat, all: seq<Target>, dryRun: bool)
    ensures Walked(env, m, n, all, dryRun, Stats(0, 0, 0, 0, 0), m)
  {
    assert Stamp(env, SetOfTargets(all[..0]), m) == m;
  }

  /** A page is the next slice of the candidates, short only at their end. */
  ghost predicate IsSlice(all: seq<Target>, start: nat, batch: nat, page: seq<Target>) {
    && |page| <= batch && start + |page| <= |all| && (|page| < batch ==> start + |page| == |all|)
    && forall i :: 0 <= i < |page| ==> page[i] == all[start + i]
  }

  lemma PageSlice(all: seq<Target>, start: nat, batch: nat, page: seq<Target>)
    requires start <= |all| && batch >= 1
    requires page == if |all[start..]| > batch then all[start..][..batch] else all[start..]
    ensures IsSlice(all, start, batch, page)
  {
  }

  /** Inside a page no whole number of pages ends; a full page ends one. */
  lemma {:induction false} MidPage(batch: nat, start: nat, i: nat)
    requires batch >= 1 && WholePages(batch, start)
    ensures 0 < i < batch ==> !WholePages(batch, start + i)
    ensures i == batch ==> WholePages(batch, start + i)
  {
    if start >= batch { MidPage(batch, start - batch, i); }
  }

  // ----- accounting -----

  lemma {:induction false} EveryTargetIsCounted(env: Env, m: Table, n: nat, s: seq<Target>)
    ensures var st := StatsOf(env, m, n, s);
            st.targets == |s| && st.targets == st.stampedTargets + st.unresolved + st.noResolver
  {
    if s != [] { EveryTargetIsCounted(env, m, n, s[..|s| - 1]); }
  }

  ghost function Those(s: seq<Target>, p: Target -> bool): set<Target> {
    set t | t in s && p(t)
  }

  lemma OneOfThoseMore(s: seq<Target>, k: nat, p: Target -> bool)
    requires |s| == k + 1 && s[k] !in s[..k]
    ensures |Those(s, p)| == |Those(s[..k], p)| + (if p(s[k]) then 1 else 0)
  {
    assert forall t :: t in s <==> t in s[..k] || t == s[k];
    assert Those(s, p) == Those(s[..k], p) + (if p(s[k]) then {s[k]} else {});
  }

  /** The three target counts are the numbers of visited targets with each
      answer. */
  lemma {:induction false} AnswersAreCounted(env: Env, m: Table, n: nat, s: seq<Target>)
    requires forall i, j :: 0 <= i < j < |s| ==> s[i] != s[j]
    ensures StatsOf(env, m, n, s).stampedTargets == |Those(s, t => Resolve(env, t).Owner?)|
    ensures StatsOf(env, m, n, s).unresolved == |Those(s, t => Resolve(env, t).Unresolved?)|
    ensures StatsOf(env, m, n, s).noResolver == |Those(s, t => Resolve(env, t).NoResolver?)|
  {
    var owner, unresolved, none :=
      (t: Target) => Resolve(env, t).Owner?, (t: Target) => Resolve(env, t).Unresolved?, (t: Target) => Resolve(env, t).NoResolver?;
    if s == [] {
      assert Those(s, owner) == {} && Those(s, unresolved) == {} && Those(s, none) == {};
    } else {
      var k := |s| - 1;
      AnswersAreCounted(env, m, n, s[..k]);
      OneOfThoseMore(s, k, owner);
      OneOfThoseMore(s, k, unresolved);
      OneOfThoseMore(s, k, none);
    }
  }

  /** No resolver for the target's type, be it that the type is not registered or
      that its policy names none. */
  predicate WithoutResolver(env: Env, t: Target) {
    t.ttype !in env.types || env.types[t.ttype].ownerKeyFor.None?
  }

  /** So a target of a type that is no longer registered counts under no_resolver
      and never under unresolved, which is left to resolvers that were asked. */
  lemma UnregisteredHasNoResolver(env: Env, m: Table, n: nat, s: seq<Target>)
    requires forall i, j :: 0 <= i < j < |s| ==> s[i] != s[j]
    ensures StatsOf(env, m, n, s).noResolver == |Those(s, t => WithoutResolver(env, t))|
    ensures StatsOf(env, m, n, s).unresolved == |Those(s, t => !WithoutResolver(env, t) && !Resolves(env, t))|
  {
    AnswersAreCounted(env, m, n, s);
    forall t { AnswerWithoutResolver(env, t); }
    SameThose(s, t => WithoutResolver(env, t), t => Resolve(env, t).NoResolver?);
    SameThose(s, t => !WithoutResolver(env, t) && !Resolves(env, t), t => Resolve(env, t).Unresolved?);
  }

  lemma AnswerWithoutResolver(env: Env, t: Target)
    ensures Resolve(env, t).NoResolver? <==> WithoutResolver(env, t)
    ensures Resolve(env, t).Unresolved? <==> !WithoutResolver(env, t) && !Resolves(env, t)
  {
  }

  lemma SameThose(s: seq<Target>, p: Target -> bool, q: Target -> bool)
    requires forall t :: t in s ==> p(t) == q(t)
    ensures Those(s, p) == Those(s, q)
  {
  }

  function WillStamp(env: Env, done: set<Target>): Where {
    (r: Review) => r.ownerKey == "" && r.target in done && Resolves(env, r.target)
  }

  lemma {:induction false} StampedPlusLeft(env: Env, done: set<Target>, m: Table, n: nat)
    requires forall t :: t in done && Resolves(env, t) ==> Resolve(env, t).key != ""
    ensures CountOf(m, n, AnyUnstamped()) ==
              CountOf(Stamp(env, done, m), n, AnyUnstamped()) + CountOf(m, n, WillStamp(env, done))
  {
    if n > 0 { StampedPlusLeft(env, done, m, n - 1); }
  }

  lemma {:induction false} StampedRowsAreTheStamped(env: Env, m: Table, n: nat, s: seq<Target>)
    requires forall i, j :: 0 <= i < j < |s| ==> s[i] != s[j]
    ensures StatsOf(env, m, n, s).stampedRows == CountOf(m, n, WillStamp(env, SetOfTargets(s)))
  {
    if s == [] {
      NothingCounted(m, n, WillStamp(env, SetOfTargets(s)));
    } else {
      var k := |s| - 1;
      StampedRowsAreTheStamped(env, m, n, s[..k]);
      OneMoreInSet(s, k);
      OneTargetMore(env, m, n, SetOfTargets(s[..k]), s[k]);
      OneVisitMore(env, m, n, s, k);
    }
  }

  lemma OneMoreInSet(s: seq<Target>, k: nat)
    requires |s| == k + 1 && forall i, j :: 0 <= i < j < |s| ==> s[i] != s[j]
    ensures SetOfTargets(s) == SetOfTargets(s[..k]) + {s[k]} && s[k] !in SetOfTargets(s[..k])
  {
    assert s == s[..k] + [s[k]];
  }

  lemma OneVisitMore(env: Env, m: Table, n: nat, s: seq<Target>, k: nat)
    requires |s| == k + 1
    ensures StatsOf(env, m, n, s).stampedRows == StatsOf(env, m, n, s[..k]).stampedRows
                                                 + (if Resolves(env, s[k]) then CountOf(m, n, UnstampedOf(s[k])) else 0)
  {
  }

  lemma OneTargetMore(env: Env, m: Table, n: nat, done: set<Target>, t: Target)
    requires t !in done
    ensures CountOf(m, n, WillStamp(env, done + {t}))
         == CountOf(m, n, WillStamp(env, done)) + (if Resolves(env, t) then CountOf(m, n, UnstampedOf(t)) else 0)
  {
    if Resolves(env, t) {
      TallySplit(m, n, WillStamp(env, done + {t}), WillStamp(env, done), UnstampedOf(t));
    } else {
      TallySameRows(m, n, WillStamp(env, done + {t}), WillStamp(env, done));
    }
  }

  lemma {:induction false} NothingCounted(m: Table, n: nat, w: Where)
    requires forall id :: id in m ==> !w(m[id])
    ensures CountOf(m, n, w) == 0
  {
    if n > 0 { NothingCounted(m, n - 1, w); }
  }

  lemma ResolvedKeyIsText(env: Env, t: Target)
    ensures Resolves(env, t) ==> Resolve(env, t).key != ""
  {
  }

  /** Every visited target is stamped, unresolved or without a resolver, and the
      rows counted as stamped are exactly the unstamped rows that go away. */
  lemma WalkAccounting(env: Env, c: Collation, m: Table, n: nat, ttype: string, batch: nat, limit: Option<int>)
    requires Lawful(c) && batch >= 1
    ensures var s := Visited(env, c, m, n, ttype, batch, limit);
            var st := StatsOf(env, m, n, s);
            && st.targets == |s| == st.stampedTargets + st.unresolved + st.noResolver
            && CountOf(m, n, AnyUnstamped()) ==
                 CountOf(Stamp(env, SetOfTargets(s), m), n, AnyUnstamped()) + st.stampedRows
  {
    var s := Visited(env, c, m, n, ttype, batch, limit);
    EveryTargetIsCounted(env, m, n, s);
    SortedIncreasing(c, m, n, Unstamped(c, ttype, None));
    forall i, j | 0 <= i < j < |s|
      ensures s[i] != s[j]
    {
      BeforeIsStrict(c, s[i], s[j]);
    }
    StampedRowsAreTheStamped(env, m, n, s);
    forall t | t in SetOfTargets(s) && Resolves(env, t)
      ensures Resolve(env, t).key != ""
    {
      ResolvedKeyIsText(env, t);
    }
    StampedPlusLeft(env, SetOfTargets(s), m, n);
  }

  // ----- the limit -----

  /** No cut before k and a stop at k: there is one such k. */
  lemma {:induction false} StopIsFirst(env: Env, all: seq<Target>, batch: nat, limit: Option<int>, from: nat, k: nat)
    requires batch >= 1 && from <= k <= |all|
    requires forall j :: from <= j < k ==> !Cut(env, all, batch, limit, j)
    requires k == |all| || Cut(env, all, batch, limit, k)
    ensures StopAt(env, all, batch, limit, from) == k
    decreases k - from
  {
    if from < k { StopIsFirst(env, all, batch, limit, from + 1, k); }
  }

  ghost predicate Uncut(env: Env, all: seq<Target>, batch: nat, limit: Option<int>, k: nat)
    requires batch >= 1
  {
    k <= |all| && forall j :: 0 <= j < k ==> !Cut(env, all, batch, limit, j)
  }

  ghost predicate Stops(env: Env, all: seq<Target>, batch: nat, limit: Option<int>, k: nat)
    requires batch >= 1
  {
    k == |all| || (k < |all| && Cut(env, all, batch, limit, k))
  }

  /** Where a page leaves the walk: stopped if the limit was reached, and
      otherwise at its end. */
  ghost predicate PageDone(env: Env, all: seq<Target>, batch: nat, limit: Option<int>, start: nat, page: seq<Target>, k: nat)
    requires batch >= 1
  {
    && start < k && Uncut(env, all, batch, limit, k)
    && (LimitHit(limit, k) ==> Stops(env, all, batch, limit, k))
    && (!LimitHit(limit, k) ==> k == start + |page| && (k == |all| || WholePages(batch, k)))
  }

  /** The walk i targets into a page. */
  ghost predicate InPage(env: Env, all: seq<Target>, batch: nat, limit: Option<int>, start: nat, page: seq<Target>, i: nat)
    requires batch >= 1
  {
    var k := start + i;
    && i <= |page| && IsSlice(all, start, batch, page) && WholePages(batch, start)
    && Uncut(env, all, batch, limit, k)
    && (i < |page| ==> !Cut(env, all, batch, limit, k))
    && (i == |page| ==> k == |all| || WholePages(batch, k))
  }

  /** The i-th target of a page: reaching the limit stops the walk only after a
      target that was stamped. */
  lemma AfterVisit(env: Env, all: seq<Target>, batch: nat, limit: Option<int>, start: nat, page: seq<Target>, i: nat)
    requires batch >= 1 && i < |page| && InPage(env, all, batch, limit, start, page, i)
    ensures if Resolves(env, page[i]) && LimitHit(limit, start + i + 1)
            then PageDone(env, all, batch, limit, start, page, start + i + 1)
            else InPage(env, all, batch, limit, start, page, i + 1)
  {
    MidPage(batch, start, i + 1);
  }

  lemma PageTarget(env: Env, all: seq<Target>, batch: nat, limit: Option<int>, start: nat, page: seq<Target>, i: nat)
    requires batch >= 1 && i < |page| && InPage(env, all, batch, limit, start, page, i)
    ensures start + i < |all| && page[i] == all[start + i]
  {
  }

  /** The inner loop after `i` targets of a page. */
  ghost predicate PageWalk(env: Env, m: Table, n: nat, all: seq<Target>, batch: nat, limit: Option<int>, dryRun: bool,
                           start: nat, page: seq<Target>, i: nat, stats: Stats, now: Table)
    requires batch >= 1
  {
    && stats.targets == start + i && Walked(env, m, n, all, dryRun, stats, now)
    && InPage(env, all, batch, limit, start, page, i)
  }

  /** The inner loop when it has let go of a page. */
  ghost predicate PageLeft(env: Env, m: Table, n: nat, all: seq<Target>, batch: nat, limit: Option<int>, dryRun: bool,
                           start: nat, page: seq<Target>, stats: Stats, now: Table)
    requires batch >= 1
  {
    Walked(env, m, n, all, dryRun, stats, now) && PageDone(env, all, batch, limit, start, page, stats.targets)
  }

  lemma PageWalked(env: Env, m: Table, n: nat, all: seq<Target>, batch: nat, limit: Option<int>, dryRun: bool,
                   start: nat, page: seq<Target>, stats: Stats, now: Table)
    requires batch >= 1 && page != []
    requires PageWalk(env, m, n, all, batch, limit, dryRun, start, page, |page|, stats, now)
    ensures PageLeft(env, m, n, all, batch, limit, dryRun, start, page, stats, now)
  {
    PageEnds(env, all, batch, limit, start, page);
  }

  /** One pass of the inner loop. */
  lemma VisitInPage(env: Env, c: Collation, m: Table, n: nat, all: seq<Target>, batch: nat, limit: Option<int>, dryRun: bool,
                    start: nat, page: seq<Target>, i: nat, stats: Stats, now: Table, stats': Stats, now': Table)
    requires Lawful(c) && Increasing(c, all) && batch >= 1 && i < |page|
    requires PageWalk(env, m, n, all, batch, limit, dryRun, start, page, i, stats, now)
    requires stats' == Visit(env, now, n, stats, page[i])
    requires now' == if dryRun then now else Stamp(env, {page[i]}, now)
    ensures if Resolves(env, page[i]) && LimitHit(limit, stats'.targets)
            then PageLeft(env, m, n, all, batch, limit, dryRun, start, page, stats', now')
            else PageWalk(env, m, n, all, batch, limit, dryRun, start, page, i + 1, stats', now')
  {
    PageTarget(env, all, batch, limit, start, page, i);
    VisitNext(env, c, m, n, all, dryRun, stats, now, stats', now');
    AfterVisit(env, all, batch, limit, start, page, i);
  }

  lemma PageEnds(env: Env, all: seq<Target>, batch: nat, limit: Option<int>, start: nat, page: seq<Target>)
    requires batch >= 1 && page != [] && InPage(env, all, batch, limit, start, page, |page|)
    ensures PageDone(env, all, batch, limit, start, page, start + |page|)
  {
  }

  /** The walk between two pages. */
  ghost predicate BetweenPages(env: Env, m: Table, n: nat, all: seq<Target>, batch: nat, limit: Option<int>,
                               dryRun: bool, stats: Stats, now: Table, last: Option<Target>)
    requires batch >= 1
  {
    var k := stats.targets;
    && Walked(env, m, n, all, dryRun, stats, now)
    && last == (if k == 0 then None else Some(all[k - 1]))
    && (k == |all| || WholePages(batch, k))
    && !(k > 0 && LimitHit(limit, k))
    && Uncut(env, all, batch, limit, k)
  }

  lemma WalkBegins(env: Env, m: Table, n: nat, all: seq<Target>, batch: nat, limit: Option<int>, dryRun: bool)
    requires batch >= 1
    ensures BetweenPages(env, m, n, all, batch, limit, dryRun, Stats(0, 0, 0, 0, 0), m, None)
  {
    WalkedNothing(env, m, n, all, dryRun);
  }

  /** The page a query over the present table returns. */
  lemma NextPage(env: Env, c: Collation, m: Table, n: nat, ttype: string, all: seq<Target>, batch: nat, limit: Option<int>,
                 dryRun: bool, stats: Stats, now: Table, last: Option<Target>, page: seq<Target>)
    requires Lawful(c) && batch >= 1 && all == Candidates(c, m, n, ttype)
    requires BetweenPages(env, m, n, all, batch, limit, dryRun, stats, now, last)
    requires var found := SortedTargets(c, now, n, Unstamped(c, ttype, last));
             page == if |found| > batch then found[..batch] else found
    ensures if page == [] then stats.targets == |all| else InPage(env, all, batch, limit, stats.targets, page, 0)
  {
    RestOfCandidates(env, c, m, now, n, ttype, stats.targets);
    PageSlice(all, stats.targets, batch, page);
  }

  lemma PageThenMore(env: Env, m: Table, n: nat, all: seq<Target>, batch: nat, limit: Option<int>,
                     dryRun: bool, start: nat, page: seq<Target>, stats: Stats, now: Table)
    requires batch >= 1 && page != [] && IsSlice(all, start, batch, page)
    requires Walked(env, m, n, all, dryRun, stats, now) && PageDone(env, all, batch, limit, start, page, stats.targets)
    requires !LimitHit(limit, stats.targets)
    ensures BetweenPages(env, m, n, all, batch, limit, dryRun, stats, now, Some(page[|page| - 1]))
  {
  }

  /** A walk that got to k uncut and stops there is the whole call. */
  lemma WalkEnds(env: Env, c: Collation, m: Table, n: nat, ttype: string, batch: nat, limit: Option<int>,
                 all: seq<Target>, dryRun: bool, stats: Stats, now: Table)
    requires batch >= 1 && all == Candidates(c, m, n, ttype)
    requires Walked(env, m, n, all, dryRun, stats, now)
    requires Uncut(env, all, batch, limit, stats.targets) && Stops(env, all, batch, limit, stats.targets)
    ensures var visited := Visited(env, c, m, n, ttype, batch, limit);
            && stats == StatsOf(env, m, n, visited)
            && now == if dryRun then m else Stamp(env, SetOfTargets(visited), m)
  {
    StopIsFirst(env, all, batch, limit, 0, stats.targets);
  }

  lemma {:induction false} StopsUncut(env: Env, all: seq<Target>, batch: nat, limit: Option<int>, from: nat)
    requires batch >= 1 && from <= |all|
    ensures var k := StopAt(env, all, batch, limit, from);
            && (forall j :: from <= j < k ==> !Cut(env, all, batch, limit, j))
            && (k == |all| || Cut(env, all, batch, limit, k))
    decreases |all| - from
  {
    if from < |all| && !Cut(env, all, batch, limit, from) { StopsUncut(env, all, batch, limit, from + 1); }
  }

  lemma {:induction false} WithinOnePage(batch: nat, limit: nat)
    requires batch >= 1 && limit >= 1
    ensures exists j: nat :: limit <= j < limit + batch && WholePages(batch, j)
  {
    if limit <= batch {
      assert WholePages(batch, batch);
    } else {
      WithinOnePage(batch, limit - batch);
      var j: nat :| limit - batch <= j < limit && WholePages(batch, j);
      assert WholePages(batch, j + batch);
    }
  }

  lemma {:induction false} WholePagesIsMultiple(batch: nat, k: nat)
    requires batch >= 1
    ensures WholePages(batch, k) <==> k % batch == 0
  {
    if k >= batch {
      WholePagesIsMultiple(batch, k - batch);
      var q, r := (k - batch) / batch, (k - batch) % batch;
      assert k == (q + 1) * batch + r;
      QuotientAndRest(k, batch, q + 1, r);
    }
  }

  lemma QuotientAndRest(x: int, d: int, q: int, r: int)
    requires 0 <= r < d && x == q * d + r
    ensures x % d == r
  {
    var e := q - x / d;
    assert x == d * (x / d) + x % d;
    assert d * e == q * d - d * (x / d);
    assert -d < d * e < d;
    if e > 0 { ScaleLe(1, e, d); }
    if e < 0 { ScaleLe(e, -1, d); }
  }

  /** A limit of L targets can be overrun, by less than a page. It is overrun if
      and only if there are more than L candidates, the L-th does not resolve,
      and L is not a whole number of pages. */
  lemma LimitIsOverrunByLessThanAPage(env: Env, all: seq<Target>, batch: nat, limit: nat)
    requires batch >= 1 && limit >= 1
    ensures var k := StopAt(env, all, batch, Some(limit), 0);
            && k < limit + batch
            && (k > limit <==> |all| > limit && !Resolves(env, all[limit - 1]) && limit % batch != 0)
            && (k < limit ==> k == |all|)
  {
    var k := StopAt(env, all, batch, Some(limit), 0);
    StopsUncut(env, all, batch, Some(limit), 0);
    WholePagesIsMultiple(batch, limit);
    WithinOnePage(batch, limit);
    var j: nat :| limit <= j < limit + batch && WholePages(batch, j);
    if k > j { assert Cut(env, all, batch, Some(limit), j); }
    if k > limit { assert !Cut(env, all, batch, Some(limit), limit); }
  }

  /** When every candidate resolves, the limit is exact. */
  lemma LimitIsExactWhenAllResolve(env: Env, all: seq<Target>, batch: nat, limit: nat)
    requires batch >= 1 && limit >= 1
    requires forall t :: t in all ==> Resolves(env, t)
    ensures StopAt(env, all, batch, Some(limit), 0) == if |all| < limit then |all| else limit
  {
    LimitIsOverrunByLessThanAPage(env, all, batch, limit);
  }

  lemma {:induction false} NoLimitNoStop(env: Env, all: seq<Target>, batch: nat, limit: Option<int>, k: nat)
    requires batch >= 1 && k <= |all| && (limit == None || limit == Some(0))
    ensures StopAt(env, all, batch, limit, k) == |all|
    decreases |all| - k
  {
    if k < |all| { NoLimitNoStop(env, all, batch, limit, k + 1); }
  }

  /** A negative limit is a limit: it stops the walk where a limit of one does. */
  lemma {:induction false} NegativeLimitIsOne(env: Env, all: seq<Target>, batch: nat, limit: int, k: nat)
    requires batch >= 1 && k <= |all| && limit < 0
    ensures StopAt(env, all, batch, Some(limit), k) == StopAt(env, all, batch, Some(1), k)
    decreases |all| - k
  {
    if k < |all| { NegativeLimitIsOne(env, all, batch, limit, k + 1); }
  }

  // ----- the table after a full run, and resuming -----

  /** The pointwise specification: no order, no pages, no cursor. */
  function StampEvery(env: Env, ttype: string, m: Table): Table {
    map id | id in m ::
      if m[id].ownerKey == "" && (ttype == "" || m[id].target.ttype == ttype) && Resolves(env, m[id].target)
      then m[id].(ownerKey := Resolve(env, m[id].target).key)
      else m[id]
  }

  /** An unlimited run stamps every row it should and no other. */
  lemma FullRunIsPointwise(env: Env, c: Collation, m: Table, n: nat, ttype: string, batch: nat)
    requires Lawful(c) && batch >= 1 && forall id :: id in m ==> id < n
    ensures Stamp(env, SetOfTargets(Visited(env, c, m, n, ttype, batch, None)), m) == StampEvery(env, ttype, m)
  {
    var all := Candidates(c, m, n, ttype);
    NoLimitNoStop(env, all, batch, None, 0);
    assert all[..|all|] == all;
    forall id | id in m && m[id].ownerKey == ""
      ensures m[id].target in all <==> ttype == "" || m[id].target.ttype == ttype
    {
      IsCandidate(c, m, n, ttype, id);
    }
  }

  lemma IsCandidate(c: Collation, m: Table, n: nat, ttype: string, id: nat)
    requires id in m && id < n && m[id].ownerKey == ""
    ensures m[id].target in Candidates(c, m, n, ttype) <==> ttype == "" || m[id].target.ttype == ttype
  {
    SortedMembers(c, m, n, Unstamped(c, ttype, None), m[id].target);
    if TypeMatches(ttype, m[id].target) { assert Picks(m, id, Unstamped(c, ttype, None)); }
  }

  lemma CandidateMatches(c: Collation, m: Table, n: nat, ttype: string, t: Target)
    requires t in Candidates(c, m, n, ttype)
    ensures TypeMatches(ttype, t)
  {
    SortedMembers(c, m, n, Unstamped(c, ttype, None), t);
  }

  /** Whatever first part of a run got done — a limited slice, or a crash after
      any target — a full run afterwards leaves the same table as one full run. */
  lemma ResumedRunIsOneRun(env: Env, c: Collation, m: Table, n: nat, ttype: string, k: nat)
    requires k <= |Candidates(c, m, n, ttype)|
    ensures StampEvery(env, ttype, Stamp(env, SetOfTargets(Candidates(c, m, n, ttype)[..k]), m))
         == StampEvery(env, ttype, m)
  {
    var done := SetOfTargets(Candidates(c, m, n, ttype)[..k]);
    forall t | t in done
      ensures TypeMatches(ttype, t)
    {
      CandidateMatches(c, m, n, ttype, t);
    }
    forall id | id in m
      ensures Resolves(env, m[id].target) ==> Resolve(env, m[id].target).key != ""
    {
      ResolvedKeyIsText(env, m[id].target);
    }
  }

  /** A second full run visits only what the resolver could not answer: it
      stamps no target and no row, and leaves the table as it is. */
  lemma SecondRunStampsNothing(env: Env, c: Collation, m: Table, n: nat, ttype: string, batch: nat, limit: Option<int>)
    requires batch >= 1
    ensures var after := StampEvery(env, ttype, m);
            var st := StatsOf(env, after, n, Visited(env, c, after, n, ttype, batch, limit));
            && StampEvery(env, ttype, after) == after
            && st.stampedTargets == 0 && st.stampedRows == 0
  {
    var after := StampEvery(env, ttype, m);
    forall id | id in m
      ensures Resolves(env, m[id].target) ==> Resolve(env, m[id].target).key != ""
    {
      ResolvedKeyIsText(env, m[id].target);
    }
    var s := Visited(env, c, after, n, ttype, batch, limit);
    forall t | t in s
      ensures !Resolves(env, t)
    {
      assert t in Candidates(c, after, n, ttype);
      SortedMembers(c, after, n, Unstamped(c, ttype, None), t);
    }
    NoneStamped(env, after, n, s);
  }

  lemma {:induction false} NoneStamped(env: Env, m: Table, n: nat, s: seq<Target>)
    requires forall t :: t in s ==> !Resolves(env, t)
    ensures StatsOf(env, m, n, s).stampedTargets == 0 && StatsOf(env, m, n, s).stampedRows == 0
  {
    if s != [] {
      assert s[|s| - 1] in s;
      NoneStamped(env, m, n, s[..|s| - 1]);
    }
  }

  /** Backfilling changes who is rated, never how a target is rated. */
  lemma StampKeepsLive(env: Env, done: set<Target>, m: Table, n: nat, t: Target)
    ensures Live(Stamp(env, done, m), n, t) == Live(m, n, t)
  {
    LiveSame(m, Stamp(env, done, m), n, t);
  }

  /** The backfill agrees with the write path: it stamps an old row with the very
      key a review of that target created now would carry. */
  lemma BackfillStampsWhatCreateWould(db: Db, env: Env, req: Request, r: Review)
    requires Admit(db, env, req).Ok? && r.target == req.target && r.ownerKey == ""
    ensures StampRow(env, {req.target}, r).ownerKey == Admit(db, env, req).value.ownerKey
  {
  }
}
