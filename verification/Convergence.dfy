/** A host projection fed by facts and snapshot rows together: the newest `seq`
    wins, whatever the order of arrival. */
module Convergence {
  import opened Model
  import opened Aggregates
  import opened Invariants
  import opened Runs
  import opened Exporting
  import opened Ordering

  /** What reaches the host: a target's aggregate, stamped with a fact's time or
      with a snapshot row's `seq`. */
  datatype Delivery = Delivery(target: Target, aggregate: Aggregate, seqNo: nat)

  function FromFact(f: Fact): Delivery {
    Delivery(f.target, f.aggregate, f.time)
  }

  /** The export's row for a target: `seq` is the newest save among its visible
      reviews. */
  function SnapshotRow(db: Db, t: Target): Delivery {
    Delivery(t, Live(db.reviews, db.nextId, t), LatestSave(db.reviews, db.nextId, OfTarget(t)))
  }

  datatype Projection = Nothing | Held(aggregate: Aggregate, seqNo: nat)

  /** Highest `seq` wins; what happens on equality is left open. */
  predicate Outranks(seqNo: nat, p: Projection, onTie: bool) {
    p.Nothing? || seqNo > p.seqNo || (onTie && seqNo == p.seqNo)
  }

  function Receive(p: Projection, d: Delivery, onTie: bool): Projection {
    if Outranks(d.seqNo, p, onTie) then Held(d.aggregate, d.seqNo) else p
  }

  /** What the host holds about `t`, starting from `start`, after the deliveries. */
  function Consume(start: Projection, ds: seq<Delivery>, t: Target, onTie: bool): Projection {
    if ds == [] then start
    else
      var p := Consume(start, ds[..|ds| - 1], t, onTie);
      if ds[|ds| - 1].target == t then Receive(p, ds[|ds| - 1], onTie) else p
  }

  /** Having nothing is as good as an aggregate of nothing. */
  ghost predicate Shows(p: Projection, live: Aggregate) {
    match p
    case Held(aggregate, _) => aggregate == live
    case Nothing => live == Aggregate(0, 0)
  }

  // ----- a snapshot row never outranks the facts it was read beside -----

  lemma {:induction false} SaveIsCovered(m: Table, n: nat, t: Target, last: Option<nat>)
    requires forall id :: id in m && m[id].target == t ==> CoveredBy(m[id], last)
    requires last.Some?
    ensures LatestSave(m, n, OfTarget(t)) <= last.value
  {
    if n > 0 { SaveIsCovered(m, n - 1, t, last); }
  }

  lemma {:induction false} CountedHasFact(log: seq<Fact>, t: Target)
    requires LastAggregate(log, t).count > 0
    ensures LastTime(log, t).Some?
  {
    if log[|log| - 1].target != t { CountedHasFact(log[..|log| - 1], t); }
  }

  /** `seq` is at most the time of the target's latest fact. */
  lemma SnapshotIsCovered(db: Db, t: Target)
    requires Inv(db) && Live(db.reviews, db.nextId, t).count > 0
    ensures var last := LastTime(db.log, t);
            last.Some? && SnapshotRow(db, t).seqNo <= last.value
  {
    assert LastAggregate(db.log, t) == Live(db.reviews, db.nextId, t);
    CountedHasFact(db.log, t);
    SaveIsCovered(db.reviews, db.nextId, t, LastTime(db.log, t));
  }

  /** A shorter log's latest fact is older, unless it is the same fact. */
  lemma {:induction false} EarlierIsOlder(log: seq<Fact>, log': seq<Fact>, bound: nat, t: Target)
    requires log <= log' && TimesRise(log', bound) && LastTime(log, t).Some?
    ensures var now, later := LastTime(log, t), LastTime(log', t);
            && later.Some? && now.value <= later.value
            && (now == later ==> LastAggregate(log, t) == LastAggregate(log', t))
  {
    if |log| == |log'| {
      assert log == log';
    } else {
      var k := |log'| - 1;
      EarlierIsOlder(log, log'[..k], bound, t);
      LastTimeBelow(log'[..k], log'[k].time, t);
    }
  }

  // ----- what may be delivered, and what it must amount to -----

  /** `d` is no newer than the final word, and if as new, agrees with it. */
  ghost predicate NoNewer(d: Delivery, aggregate: Aggregate, seqNo: nat) {
    d.seqNo <= seqNo && (d.seqNo == seqNo ==> d.aggregate == aggregate)
  }

  lemma {:induction false} NewestWins(ds: seq<Delivery>, t: Target, onTie: bool, aggregate: Aggregate, seqNo: nat)
    requires forall d :: d in ds && d.target == t ==> NoNewer(d, aggregate, seqNo)
    ensures var p := Consume(Nothing, ds, t, onTie);
            && (p.Held? ==> NoNewer(Delivery(t, p.aggregate, p.seqNo), aggregate, seqNo))
            && (Delivery(t, aggregate, seqNo) in ds ==> p == Held(aggregate, seqNo))
  {
    if ds != [] { NewestWins(ds[..|ds| - 1], t, onTie, aggregate, seqNo); }
  }

  lemma {:induction false} NothingConsumed(ds: seq<Delivery>, t: Target, onTie: bool)
    requires forall d :: d in ds ==> d.target != t
    ensures Consume(Nothing, ds, t, onTie) == Nothing
  {
    if ds != [] { NothingConsumed(ds[..|ds| - 1], t, onTie); }
  }

  /** `d` is the snapshot row of `d.target` as exported after some first part of
      the run. */
  ghost predicate ReadDuring(db: Db, ops: seq<Op>, d: Delivery) {
    exists k :: 0 <= k <= |ops| && SnapshotAt(Run(db, ops[..k]), d)
  }

  ghost predicate IsFact(log: seq<Fact>, d: Delivery) {
    exists i :: 0 <= i < |log| && FromFact(log[i]) == d
  }

  ghost predicate SnapshotAt(db: Db, d: Delivery) {
    Live(db.reviews, db.nextId, d.target).count > 0 && d == SnapshotRow(db, d.target)
  }

  lemma {:induction false} LastFactIs(log: seq<Fact>, t: Target) returns (i: nat)
    requires LastTime(log, t).Some?
    ensures i < |log| && FromFact(log[i]) == Delivery(t, LastAggregate(log, t), LastTime(log, t).value)
  {
    if log[|log| - 1].target == t {
      i := |log| - 1;
    } else {
      i := LastFactIs(log[..|log| - 1], t);
    }
  }

  lemma {:induction false} FactIsNoNewer(log: seq<Fact>, bound: nat, i: nat)
    requires TimesRise(log, bound) && i < |log|
    ensures var t := log[i].target;
            LastTime(log, t).Some? && NoNewer(FromFact(log[i]), LastAggregate(log, t), LastTime(log, t).value)
  {
    EarlierIsOlder(log[..i + 1], log, bound, log[i].target);
  }

  lemma InvTimes(db: Db)
    requires Inv(db)
    ensures TimesRise(db.log, db.clock)
  {
  }

  /** A snapshot row beside the facts of its own store. */
  lemma SnapshotRanks(db: Db, d: Delivery)
    requires Inv(db) && SnapshotAt(db, d)
    ensures var last := LastTime(db.log, d.target);
            last.Some? && d.seqNo <= last.value && d.aggregate == LastAggregate(db.log, d.target)
  {
    SnapshotIsCovered(db, d.target);
    assert LastAggregate(db.log, d.target) == Live(db.reviews, db.nextId, d.target);
  }

  lemma StillOutranked(log: seq<Fact>, log': seq<Fact>, bound: nat, d: Delivery)
    requires log <= log' && TimesRise(log', bound)
    requires LastTime(log, d.target).Some? && d.seqNo <= LastTime(log, d.target).value
    requires d.aggregate == LastAggregate(log, d.target)
    ensures LastTime(log', d.target).Some?
    ensures NoNewer(d, LastAggregate(log', d.target), LastTime(log', d.target).value)
  {
    EarlierIsOlder(log, log', bound, d.target);
  }

  lemma SnapshotThenLater(before: Db, end: Db, d: Delivery)
    requires Inv(before) && Inv(end) && before.log <= end.log && SnapshotAt(before, d)
    ensures LastTime(end.log, d.target).Some?
    ensures NoNewer(d, LastAggregate(end.log, d.target), LastTime(end.log, d.target).value)
  {
    SnapshotRanks(before, d);
    InvTimes(end);
    StillOutranked(before.log, end.log, end.clock, d);
  }

  lemma SnapshotIsNoNewer(db: Db, ops: seq<Op>, d: Delivery)
    requires Inv(db) && ReadDuring(db, ops, d)
    ensures var log := Run(db, ops).log;
            LastTime(log, d.target).Some? && NoNewer(d, LastAggregate(log, d.target), LastTime(log, d.target).value)
  {
    var k :| 0 <= k <= |ops| && SnapshotAt(Run(db, ops[..k]), d);
    RunKeeps(db, ops[..k]);
    RunKeeps(db, ops);
    LogExtends(db, ops, k);
    SnapshotThenLater(Run(db, ops[..k]), Run(db, ops), d);
  }

  lemma LogExtends(db: Db, ops: seq<Op>, k: nat)
    requires k <= |ops|
    ensures Run(db, ops[..k]).log <= Run(db, ops).log
  {
    RunSplits(db, ops, k);
    RunForward(Run(db, ops[..k]), ops[k..]);
  }

  /** What the export sends for a target visible in a store is that store's
      snapshot row. */
  lemma ExportedRowIsSnapshot(db: Db, row: ExportRow)
    requires VisibleIn(Snapshot(db.reviews, db.nextId), row.target)
    requires row == RowOf(db.reviews, db.nextId, row.target)
    ensures SnapshotAt(db, Delivery(row.target, row.aggregate, row.seqNo))
  {
    var id: nat :| id < db.nextId && id in db.reviews && Visible(db.reviews[id].status) && db.reviews[id].target == row.target;
    TallyCountsRows(db.reviews, db.nextId, OfTarget(row.target));
    assert id in IdsWhere(db.reviews, db.nextId, OfTarget(row.target));
  }

  /** Take any run, all its facts, and any snapshot rows exported along the way;
      deliver them in any order, any number of times. The host ends with the
      live aggregate, or with nothing for a target that never had a fact and
      has nothing visible. */
  lemma FactsAndSnapshotsConverge(db: Db, ops: seq<Op>, ds: seq<Delivery>, t: Target, onTie: bool)
    requires Inv(db)
    requires forall d :: d in ds ==> ReadDuring(db, ops, d) || IsFact(Run(db, ops).log, d)
    requires forall i :: 0 <= i < |Run(db, ops).log| ==> FromFact(Run(db, ops).log[i]) in ds
    ensures var end := Run(db, ops);
            Shows(Consume(Nothing, ds, t, onTie), Live(end.reviews, end.nextId, t))
  {
    var end := Run(db, ops);
    RunKeeps(db, ops);
    assert LastAggregate(end.log, t) == Live(end.reviews, end.nextId, t);
    forall d | d in ds
      ensures LastTime(end.log, d.target).Some?
      ensures NoNewer(d, LastAggregate(end.log, d.target), LastTime(end.log, d.target).value)
    {
      if ReadDuring(db, ops, d) {
        SnapshotIsNoNewer(db, ops, d);
      } else {
        var i :| 0 <= i < |end.log| && FromFact(end.log[i]) == d;
        FactIsNoNewer(end.log, end.clock, i);
      }
    }
    if LastTime(end.log, t).Some? {
      var i := LastFactIs(end.log, t);
      NewestWins(ds, t, onTie, LastAggregate(end.log, t), LastTime(end.log, t).value);
    } else {
      NothingConsumed(ds, t, onTie);
      NoFactNoAggregate(end.log, t);
    }
  }

  // ----- rebuilding a host that was not there from the start -----

  /** `d` is a fact emitted after the first `from` facts. */
  ghost predicate IsLaterFact(log: seq<Fact>, from: nat, d: Delivery) {
    exists i :: from <= i < |log| && FromFact(log[i]) == d
  }

  ghost predicate VisibleThroughout(db: Db, ops: seq<Op>, t: Target) {
    forall k :: 0 <= k <= |ops| ==> Live(Run(db, ops[..k]).reviews, Run(db, ops[..k]).nextId, t).count > 0
  }

  /** A target the longer log says nothing new about. */
  lemma {:induction false} NothingNew(log: seq<Fact>, log': seq<Fact>, t: Target)
    requires log <= log' && forall i :: |log| <= i < |log'| ==> log'[i].target != t
    ensures LastAggregate(log', t) == LastAggregate(log, t)
  {
    if |log| < |log'| { NothingNew(log, log'[..|log'| - 1], t); } else { assert log == log'; }
  }

  ghost predicate NothingLater(db: Db, ops: seq<Op>, t: Target) {
    forall i :: |db.log| <= i < |Run(db, ops).log| ==> Run(db, ops).log[i].target != t
  }

  /** With no fact about `t` after the start, its aggregate never moves. */
  lemma StillLive(db: Db, ops: seq<Op>, t: Target, k: nat)
    requires Inv(db) && k <= |ops| && NothingLater(db, ops, t)
    ensures Live(Run(db, ops[..k]).reviews, Run(db, ops[..k]).nextId, t)
         == Live(Run(db, ops).reviews, Run(db, ops).nextId, t)
  {
    var mid, end := Run(db, ops[..k]), Run(db, ops);
    RunKeeps(db, ops[..k]);
    RunKeeps(db, ops);
    LogExtends(db, ops, k);
    RunForward(db, ops[..k]);
    NothingNew(mid.log, end.log, t);
    assert LastAggregate(mid.log, t) == Live(mid.reviews, mid.nextId, t);
    assert LastAggregate(end.log, t) == Live(end.reviews, end.nextId, t);
  }

  lemma DeliveredIsNoNewer(db: Db, ops: seq<Op>, d: Delivery)
    requires Inv(db) && (ReadDuring(db, ops, d) || IsLaterFact(Run(db, ops).log, |db.log|, d))
    ensures var log := Run(db, ops).log;
            LastTime(log, d.target).Some? && NoNewer(d, LastAggregate(log, d.target), LastTime(log, d.target).value)
  {
    if ReadDuring(db, ops, d) {
      SnapshotIsNoNewer(db, ops, d);
    } else {
      var end := Run(db, ops);
      RunKeeps(db, ops);
      var i :| |db.log| <= i < |end.log| && FromFact(end.log[i]) == d;
      FactIsNoNewer(end.log, end.clock, i);
    }
  }

  /** The last fact about a target with a fact after the start is one of those. */
  lemma {:induction false} LastIsLater(log: seq<Fact>, from: nat, t: Target) returns (i: nat)
    requires from <= |log| && exists i :: from <= i < |log| && log[i].target == t
    ensures from <= i < |log| && LastTime(log, t).Some?
    ensures FromFact(log[i]) == Delivery(t, LastAggregate(log, t), LastTime(log, t).value)
  {
    var k := |log| - 1;
    if log[k].target == t {
      i := k;
    } else {
      var j :| from <= j < |log| && log[j].target == t;
      assert log[..k][j].target == t;
      i := LastIsLater(log[..k], from, t);
    }
  }

  lemma {:induction false} OneAnswer(ds: seq<Delivery>, t: Target, onTie: bool, aggregate: Aggregate)
    requires forall d :: d in ds && d.target == t ==> d.aggregate == aggregate
    ensures Consume(Nothing, ds, t, onTie).Held? ==> Consume(Nothing, ds, t, onTie).aggregate == aggregate
    ensures Consume(Nothing, ds, t, onTie).Nothing? <==> forall d :: d in ds ==> d.target != t
  {
    if ds != [] {
      var k := |ds| - 1;
      OneAnswer(ds[..k], t, onTie, aggregate);
      assert forall d :: d in ds <==> d in ds[..k] || d == ds[k];
    }
  }

  /** A target with a fact after the start ends with its last fact. */
  lemma RebuiltFromFacts(db: Db, ops: seq<Op>, ds: seq<Delivery>, t: Target, onTie: bool)
    requires Inv(db)
    requires forall d :: d in ds ==> ReadDuring(db, ops, d) || IsLaterFact(Run(db, ops).log, |db.log|, d)
    requires forall i :: |db.log| <= i < |Run(db, ops).log| ==> FromFact(Run(db, ops).log[i]) in ds
    requires exists i :: |db.log| <= i < |Run(db, ops).log| && Run(db, ops).log[i].target == t
    ensures var end := Run(db, ops);
            Consume(Nothing, ds, t, onTie).Held? && Consume(Nothing, ds, t, onTie).aggregate == Live(end.reviews, end.nextId, t)
  {
    var end := Run(db, ops);
    RunKeeps(db, ops);
    RunForward(db, ops);
    forall d | d in ds
      ensures LastTime(end.log, d.target).Some?
      ensures NoNewer(d, LastAggregate(end.log, d.target), LastTime(end.log, d.target).value)
    {
      DeliveredIsNoNewer(db, ops, d);
    }
    var i := LastIsLater(end.log, |db.log|, t);
    NewestWins(ds, t, onTie, LastAggregate(end.log, t), LastTime(end.log, t).value);
    assert LastAggregate(end.log, t) == Live(end.reviews, end.nextId, t);
  }

  /** A snapshot row read meanwhile is then as good as any. */
  lemma ReadIsLive(db: Db, ops: seq<Op>, d: Delivery)
    requires Inv(db) && ReadDuring(db, ops, d) && NothingLater(db, ops, d.target)
    ensures d.aggregate == Live(Run(db, ops).reviews, Run(db, ops).nextId, d.target)
  {
    var k :| 0 <= k <= |ops| && SnapshotAt(Run(db, ops[..k]), d);
    StillLive(db, ops, d.target, k);
  }

  lemma LiveMeansThroughout(db: Db, ops: seq<Op>, t: Target)
    requires Inv(db) && NothingLater(db, ops, t)
    requires Live(Run(db, ops).reviews, Run(db, ops).nextId, t).count > 0
    ensures VisibleThroughout(db, ops, t)
  {
    forall k | 0 <= k <= |ops|
      ensures Live(Run(db, ops[..k]).reviews, Run(db, ops[..k]).nextId, t).count > 0
    {
      StillLive(db, ops, t, k);
    }
  }

  /** A target without one ends with a snapshot row. */
  lemma RebuiltFromSnapshot(db: Db, ops: seq<Op>, ds: seq<Delivery>, t: Target, onTie: bool, live: Aggregate)
    requires Inv(db) && NothingLater(db, ops, t) && live == Live(Run(db, ops).reviews, Run(db, ops).nextId, t)
    requires forall d :: d in ds ==> ReadDuring(db, ops, d) || IsLaterFact(Run(db, ops).log, |db.log|, d)
    requires VisibleThroughout(db, ops, t) ==> exists d :: d in ds && d.target == t
    ensures Consume(Nothing, ds, t, onTie).Held? ==> Consume(Nothing, ds, t, onTie).aggregate == live
    ensures Consume(Nothing, ds, t, onTie).Nothing? ==> live.count == 0
  {
    forall d | d in ds && d.target == t
      ensures d.aggregate == live
    {
      ReadIsLive(db, ops, d);
    }
    OneAnswer(ds, t, onTie, live);
    if live.count > 0 { LiveMeansThroughout(db, ops, t); }
  }

  /** The rebuild of an empty host: beside a store with any history, it is given
      every fact from then on and a snapshot read meanwhile, in any order and with
      repeats. The snapshot need only have what `Exporting.ExportIsStable` gives:
      each target visible all along. */
  lemma EmptyHostRebuilds(db: Db, ops: seq<Op>, ds: seq<Delivery>, t: Target, onTie: bool)
    requires Inv(db)
    requires forall d :: d in ds ==> ReadDuring(db, ops, d) || IsLaterFact(Run(db, ops).log, |db.log|, d)
    requires forall i :: |db.log| <= i < |Run(db, ops).log| ==> FromFact(Run(db, ops).log[i]) in ds
    requires VisibleThroughout(db, ops, t) ==> exists d :: d in ds && d.target == t
    ensures var end := Run(db, ops);
            Shows(Consume(Nothing, ds, t, onTie), Live(end.reviews, end.nextId, t))
  {
    if exists i :: |db.log| <= i < |Run(db, ops).log| && Run(db, ops).log[i].target == t {
      RebuiltFromFacts(db, ops, ds, t, onTie);
    } else {
      RebuiltFromSnapshot(db, ops, ds, t, onTie, Live(Run(db, ops).reviews, Run(db, ops).nextId, t));
    }
  }

  // ----- rebuilding a host that already holds something -----

  /** Some delivery about `t` is one the host takes over what it started from. */
  ghost predicate Outranked(start: Projection, ds: seq<Delivery>, t: Target, onTie: bool) {
    exists d :: d in ds && d.target == t && Outranks(d.seqNo, start, onTie)
  }

  lemma OutrankedMore(start: Projection, ds: seq<Delivery>, k: nat, t: Target, onTie: bool)
    requires |ds| == k + 1
    ensures Outranked(start, ds, t, onTie) <==>
              Outranked(start, ds[..k], t, onTie) || (ds[k].target == t && Outranks(ds[k].seqNo, start, onTie))
  {
    assert forall d :: d in ds <==> d in ds[..k] || d == ds[k];
  }

  /** What an entry makes of the deliveries: without one that outranks it, it
      stays; with one, it is forgotten. */
  lemma {:induction false} EntryStaysOrGoes(start: Projection, ds: seq<Delivery>, t: Target, onTie: bool)
    requires start.Held?
    ensures Outranked(start, ds, t, onTie) ==> Consume(start, ds, t, onTie) == Consume(Nothing, ds, t, onTie)
    ensures !Outranked(start, ds, t, onTie) ==> Consume(start, ds, t, onTie) == start
    ensures Outranked(start, ds, t, onTie) ==> Consume(Nothing, ds, t, onTie).Held?
    ensures !Outranked(start, ds, t, onTie) && Consume(Nothing, ds, t, onTie).Held? ==>
              !Outranks(Consume(Nothing, ds, t, onTie).seqNo, start, onTie)
  {
    if ds != [] {
      var k := |ds| - 1;
      EntryStaysOrGoes(start, ds[..k], t, onTie);
      OutrankedMore(start, ds, k, t, onTie);
    }
  }

  /** The rebuild of any host, fresh or drifted: it ends with the live aggregate of
      `t` if and only if it held nothing, already held that aggregate, or is
      given something about `t` that outranks what it held. */
  lemma RebuildConverges(start: Projection, db: Db, ops: seq<Op>, ds: seq<Delivery>, t: Target, onTie: bool)
    requires Inv(db)
    requires forall d :: d in ds ==> ReadDuring(db, ops, d) || IsLaterFact(Run(db, ops).log, |db.log|, d)
    requires forall i :: |db.log| <= i < |Run(db, ops).log| ==> FromFact(Run(db, ops).log[i]) in ds
    requires VisibleThroughout(db, ops, t) ==> exists d :: d in ds && d.target == t
    ensures var end := Run(db, ops);
            var live := Live(end.reviews, end.nextId, t);
            Shows(Consume(start, ds, t, onTie), live) <==>
              start.Nothing? || start.aggregate == live || Outranked(start, ds, t, onTie)
  {
    EmptyHostRebuilds(db, ops, ds, t, onTie);
    if start.Held? { EntryStaysOrGoes(start, ds, t, onTie); }
  }

  /** An entry no newer than what the store had said of `t` is always mended once
      the store says anything more of `t`. */
  lemma LaterFactMends(start: Projection, db: Db, ops: seq<Op>, ds: seq<Delivery>, t: Target, onTie: bool)
    requires Inv(db)
    requires forall d :: d in ds ==> ReadDuring(db, ops, d) || IsLaterFact(Run(db, ops).log, |db.log|, d)
    requires forall i :: |db.log| <= i < |Run(db, ops).log| ==> FromFact(Run(db, ops).log[i]) in ds
    requires VisibleThroughout(db, ops, t) ==> exists d :: d in ds && d.target == t
    requires start.Held? ==> LastTime(db.log, t).Some? && start.seqNo <= LastTime(db.log, t).value
    requires !NothingLater(db, ops, t)
    ensures Shows(Consume(start, ds, t, onTie), Live(Run(db, ops).reviews, Run(db, ops).nextId, t))
  {
    var end := Run(db, ops);
    RebuildConverges(start, db, ops, ds, t, onTie);
    RunKeeps(db, ops);
    RunForward(db, ops);
    var i :| |db.log| <= i < |end.log| && end.log[i].target == t;
    if start.Held? {
      LaterIsNewer(db.log, end.log, end.clock, i, t);
      assert FromFact(end.log[i]) in ds && Outranks(end.log[i].time, start, onTie);
    }
  }

  lemma {:induction false} LaterIsNewer(log: seq<Fact>, log': seq<Fact>, bound: nat, i: nat, t: Target)
    requires log <= log' && TimesRise(log', bound) && |log| <= i < |log'| && LastTime(log, t).Some?
    ensures log'[i].time > LastTime(log, t).value
  {
    if log[|log| - 1].target != t {
      LaterIsNewer(log[..|log| - 1], log', bound, i, t);
    } else {
      assert log'[|log| - 1] == log[|log| - 1];
    }
  }

  // ----- and with the snapshot that the export really sends -----

  function FromRow(r: ExportRow): Delivery {
    Delivery(r.target, r.aggregate, r.seqNo)
  }

  ghost predicate IsRow(pages: seq<Page>, d: Delivery) {
    exists k, i :: 0 <= k < |pages| && 0 <= i < |pages[k].rows| && FromRow(pages[k].rows[i]) == d
  }

  /** Page k was read after the first `at[k]` writes. */
  ghost predicate ReadAlong(db: Db, ops: seq<Op>, stores: seq<Snapshot>, at: seq<nat>) {
    && |at| == |stores|
    && forall k :: 0 <= k < |at| ==>
         at[k] <= |ops| && stores[k] == Snapshot(Run(db, ops[..at[k]]).reviews, Run(db, ops[..at[k]]).nextId)
  }

  lemma CountedIsVisible(db: Db, t: Target)
    requires Live(db.reviews, db.nextId, t).count > 0
    ensures VisibleIn(Snapshot(db.reviews, db.nextId), t)
  {
    TallyCountsRows(db.reviews, db.nextId, OfTarget(t));
    var id :| id in IdsWhere(db.reviews, db.nextId, OfTarget(t));
    assert id < db.nextId && id in db.reviews;
  }

  lemma {:induction false} ListedHasRow(pages: seq<Page>, t: Target) returns (k: nat, i: nat)
    requires t in AllTargets(pages)
    ensures k < |pages| && i < |pages[k].rows| && pages[k].rows[i].target == t
  {
    var n := |pages| - 1;
    if t in TargetsOf(pages[n].rows) {
      k := n;
      i :| 0 <= i < |pages[n].rows| && TargetsOf(pages[n].rows)[i] == t;
    } else {
      k, i := ListedHasRow(pages[..n], t);
    }
  }

  lemma RowIsReadDuring(db: Db, ops: seq<Op>, at: nat, row: ExportRow)
    requires at <= |ops|
    requires VisibleIn(Snapshot(Run(db, ops[..at]).reviews, Run(db, ops[..at]).nextId), row.target)
    requires row == RowOf(Run(db, ops[..at]).reviews, Run(db, ops[..at]).nextId, row.target)
    ensures ReadDuring(db, ops, FromRow(row))
  {
    ExportedRowIsSnapshot(Run(db, ops[..at]), row);
  }

  lemma RowsAreReadDuring(db: Db, ops: seq<Op>, codec: Codec, c: Collation, stores: seq<Snapshot>, at: seq<nat>,
                          limit: Option<int>, pages: seq<Page>, d: Delivery)
    requires RoundTrips(codec) && Lawful(c) && Walk(codec, c, stores, limit, pages) && Finished(pages)
    requires ReadAlong(db, ops, stores, at) && IsRow(pages, d)
    ensures ReadDuring(db, ops, d)
  {
    ExportIsStable(codec, c, stores, limit, pages);
    var k, i :| 0 <= k < |pages| && 0 <= i < |pages[k].rows| && FromRow(pages[k].rows[i]) == d;
    RowIsReadDuring(db, ops, at[k], pages[k].rows[i]);
  }

  lemma ExportCovers(db: Db, ops: seq<Op>, codec: Codec, c: Collation, stores: seq<Snapshot>, at: seq<nat>,
                     limit: Option<int>, pages: seq<Page>, t: Target) returns (d: Delivery)
    requires RoundTrips(codec) && Lawful(c) && Walk(codec, c, stores, limit, pages) && Finished(pages)
    requires ReadAlong(db, ops, stores, at) && VisibleThroughout(db, ops, t)
    ensures IsRow(pages, d) && d.target == t
  {
    ExportIsStable(codec, c, stores, limit, pages);
    forall k | 0 <= k < |stores|
      ensures VisibleIn(stores[k], t)
    {
      CountedIsVisible(Run(db, ops[..at[k]]), t);
    }
    var k, i := ListedHasRow(pages, t);
    d := FromRow(pages[k].rows[i]);
  }

  /** End to end: a host is given the rows of a finished export, its pages read at
      any points of a run, and every fact the run emits, in any order and with
      repeats. It ends with the live aggregate of a target if and only if it held
      nothing of it, already held that, or held something that is outranked. */
  lemma RebuildFromExport(start: Projection, db: Db, ops: seq<Op>, codec: Codec, c: Collation, stores: seq<Snapshot>,
                          at: seq<nat>, limit: Option<int>, pages: seq<Page>, ds: seq<Delivery>, t: Target, onTie: bool)
    requires Inv(db) && RoundTrips(codec) && Lawful(c)
    requires Walk(codec, c, stores, limit, pages) && Finished(pages) && ReadAlong(db, ops, stores, at)
    requires forall d :: d in ds <==> IsRow(pages, d) || IsLaterFact(Run(db, ops).log, |db.log|, d)
    ensures var end := Run(db, ops);
            var live := Live(end.reviews, end.nextId, t);
            Shows(Consume(start, ds, t, onTie), live) <==>
              start.Nothing? || start.aggregate == live || Outranked(start, ds, t, onTie)
  {
    forall d | d in ds
      ensures ReadDuring(db, ops, d) || IsLaterFact(Run(db, ops).log, |db.log|, d)
    {
      if IsRow(pages, d) { RowsAreReadDuring(db, ops, codec, c, stores, at, limit, pages, d); }
    }
    if VisibleThroughout(db, ops, t) {
      var d := ExportCovers(db, ops, codec, c, stores, at, limit, pages, t);
      assert d in ds;
    }
    RebuildConverges(start, db, ops, ds, t, onTie);
  }

  lemma {:induction false} NoFactNoAggregate(log: seq<Fact>, t: Target)
    requires LastTime(log, t).None?
    ensures LastAggregate(log, t) == Aggregate(0, 0)
  {
    if log != [] { NoFactNoAggregate(log[..|log| - 1], t); }
  }
}
