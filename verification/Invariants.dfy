/** What every write keeps: keys and cascades, the partial unique constraint,
    and an emitted fact log that stays in step with the stored rows. */
module Invariants {
  import opened Model
  import opened Aggregates
  import opened Engine

  // ----- what a consumer of the log knows -----

  /** A host's projection of a target: the aggregate of its last fact, or zero
      and zero when there was none. */
  ghost function LastAggregate(log: seq<Fact>, t: Target): Aggregate {
    if log == [] then Aggregate(0, 0)
    else if log[|log| - 1].target == t then log[|log| - 1].aggregate
    else LastAggregate(log[..|log| - 1], t)
  }

  /** What the log last said about one review. */
  ghost function LastKind(log: seq<Fact>, id: nat): Option<FactKind> {
    if log == [] then None
    else if log[|log| - 1].reviewId == id then Some(log[|log| - 1].kind)
    else LastKind(log[..|log| - 1], id)
  }

  /** The time of a target's latest fact. */
  ghost function LastTime(log: seq<Fact>, t: Target): Option<nat> {
    if log == [] then None
    else if log[|log| - 1].target == t then Some(log[|log| - 1].time)
    else LastTime(log[..|log| - 1], t)
  }

  /** No fact repeats the kind of its review's previous fact. */
  ghost predicate Alternates(log: seq<Fact>) {
    forall k :: 0 <= k < |log| ==> LastKind(log[..k], log[k].reviewId) != Some(log[k].kind)
  }

  ghost predicate TimesRise(log: seq<Fact>, bound: nat) {
    && (forall i, j :: 0 <= i < j < |log| ==> log[i].time < log[j].time)
    && (forall i :: 0 <= i < |log| ==> log[i].time < bound)
  }

  // ----- the invariant -----

  ghost predicate Keyed(db: Db) {
    (forall id :: id in db.reviews ==> id < db.nextId) && db.responses.Keys <= db.reviews.Keys
  }

  /** rev_one_per_author: flagged rows are unique per target and author. */
  ghost predicate OnePerAuthor(m: Table) {
    forall i, j :: i in m && j in m && i != j && m[i].uniquePerAuthor && m[j].uniquePerAuthor ==>
      m[i].target != m[j].target || m[i].author != m[j].author
  }

  ghost predicate Projected(db: Db) {
    forall t :: LastAggregate(db.log, t) == Live(db.reviews, db.nextId, t)
  }

  /** A stored row and its facts: pending means no fact yet, published means
      the last one said so, and nothing else is said to be visible. */
  ghost predicate Recorded(m: Table, nextId: nat, id: nat, last: Option<FactKind>) {
    if id in m then
      match m[id].status
      case Pending => last == None
      case Published => last == Some(PublishedFact)
      case Hidden => last == Some(HiddenFact)
    else
      last != Some(PublishedFact) && (id >= nextId ==> last == None)
  }

  ghost predicate Ledgered(db: Db) {
    Alternates(db.log) && forall id: nat :: Recorded(db.reviews, db.nextId, id, LastKind(db.log, id))
  }

  /** A visible row was last saved no later than its target's latest fact. */
  ghost predicate CoveredBy(r: Review, last: Option<nat>) {
    Visible(r.status) ==> last.Some? && r.updatedAt <= last.value
  }

  ghost predicate Timed(db: Db) {
    && TimesRise(db.log, db.clock)
    && forall id :: id in db.reviews ==> CoveredBy(db.reviews[id], LastTime(db.log, db.reviews[id].target))
  }

  ghost predicate Inv(db: Db) {
    Keyed(db) && OnePerAuthor(db.reviews) && Projected(db) && Ledgered(db) && Timed(db)
  }

  lemma EmptyInv()
    ensures Inv(EMPTY_DB)
  {
  }

  // ----- appending one fact -----

  lemma AppendedLast(log: seq<Fact>, f: Fact)
    ensures forall t :: LastAggregate(log + [f], t) == if t == f.target then f.aggregate else LastAggregate(log, t)
    ensures forall id: nat :: LastKind(log + [f], id) == if id == f.reviewId then Some(f.kind) else LastKind(log, id)
    ensures forall t :: LastTime(log + [f], t) == if t == f.target then Some(f.time) else LastTime(log, t)
  {
    assert (log + [f])[..|log|] == log;
  }

  lemma AppendedAlternates(log: seq<Fact>, f: Fact)
    requires Alternates(log) && LastKind(log, f.reviewId) != Some(f.kind)
    ensures Alternates(log + [f])
  {
    forall k | 0 <= k < |log + [f]|
      ensures LastKind((log + [f])[..k], (log + [f])[k].reviewId) != Some((log + [f])[k].kind)
    {
      assert (log + [f])[..k] == log[..k];
      if k == |log| { assert log[..k] == log; }
    }
  }

  lemma {:induction false} LastTimeBelow(log: seq<Fact>, bound: nat, t: Target)
    requires TimesRise(log, bound)
    ensures LastTime(log, t).Some? ==> LastTime(log, t).value < bound
  {
    if log != [] && log[|log| - 1].target != t {
      LastTimeBelow(log[..|log| - 1], bound, t);
    }
  }

  /** A fact never makes a saved time uncovered. */
  lemma AppendedCovers(log: seq<Fact>, bound: nat, f: Fact, r: Review)
    requires TimesRise(log, bound) && f.time >= bound
    requires CoveredBy(r, LastTime(log, r.target))
    ensures CoveredBy(r, LastTime(log + [f], r.target))
  {
    AppendedLast(log, f);
    LastTimeBelow(log, bound, r.target);
  }

  // ----- aggregates under row changes -----

  lemma LiveSame(m: Table, m': Table, n: nat, t: Target)
    requires forall id: nat :: id < n ==> SamePick(m, m', id, OfTarget(t), OfTarget(t))
    ensures Live(m, n, t) == Live(m', n, t)
  {
    TallySame(m, m', n, OfTarget(t), OfTarget(t));
  }

  /** Two rows a projection cannot tell apart. */
  ghost predicate SameToReaders(r: Review, r': Review) {
    r.target == r'.target && r.status == r'.status && r.rating == r'.rating && r.updatedAt == r'.updatedAt
  }

  /** Changing only who a row belongs to, its flag or its owner key changes no
      aggregate and needs no fact. */
  lemma RelabelKeeps(db: Db, m: Table, responses: map<nat, Response>)
    requires Inv(db)
    requires m.Keys == db.reviews.Keys && responses.Keys <= m.Keys
    requires forall id :: id in m ==> SameToReaders(db.reviews[id], m[id])
    requires OnePerAuthor(m)
    ensures Inv(db.(reviews := m, responses := responses))
  {
    forall t
      ensures Live(db.reviews, db.nextId, t) == Live(m, db.nextId, t)
    {
      LiveSame(db.reviews, m, db.nextId, t);
    }
    forall id: nat
      ensures Recorded(m, db.nextId, id, LastKind(db.log, id))
    {
      assert Recorded(db.reviews, db.nextId, id, LastKind(db.log, id));
    }
  }

  // ----- one row changes and one fact is emitted -----

  /** The store between a row change and its fact: everything holds except what
      the fact on `id` about `t` is about to say. */
  ghost predicate OwesFact(db: Db, kind: FactKind, id: nat, t: Target) {
    && Keyed(db) && OnePerAuthor(db.reviews)
    && (forall u :: u != t ==> LastAggregate(db.log, u) == Live(db.reviews, db.nextId, u))
    && Alternates(db.log) && LastKind(db.log, id) != Some(kind)
    && Recorded(db.reviews, db.nextId, id, Some(kind))
    && (forall k: nat :: k != id ==> Recorded(db.reviews, db.nextId, k, LastKind(db.log, k)))
    && TimesRise(db.log, db.clock)
    && (forall k :: k in db.reviews && k != id ==> CoveredBy(db.reviews[k], LastTime(db.log, db.reviews[k].target)))
    && (id in db.reviews ==> db.reviews[id].target == t && db.reviews[id].updatedAt <= db.clock)
  }

  lemma EmitPaysTheFact(db: Db, kind: FactKind, id: nat, r: Review, reason: string)
    requires OwesFact(db, kind, id, r.target)
    ensures Inv(Emit(db, kind, id, r, reason))
  {
    var db' := Emit(db, kind, id, r, reason);
    var f := db'.log[|db.log|];
    assert db'.log == db.log + [f];
    AppendedLast(db.log, f);
    AppendedAlternates(db.log, f);
    assert Projected(db');
    assert Ledgered(db');
    forall k | k in db'.reviews
      ensures CoveredBy(db'.reviews[k], LastTime(db'.log, db'.reviews[k].target))
    {
      if k != id { AppendedCovers(db.log, db.clock, f, db.reviews[k]); }
    }
  }

  /** An insert below the new id leaves the other targets' aggregates alone. */
  lemma LiveAfterInsert(m: Table, n: nat, r: Review, t: Target)
    requires forall id :: id in m ==> id < n
    requires r.target != t || !Visible(r.status)
    ensures Live(m[n := r], n + 1, t) == Live(m, n, t)
  {
    LiveSame(m, m[n := r], n, t);
  }

  /** The store with the draft's row and not yet its fact. */
  ghost function Stored(db: Db, d: Draft): Db {
    db.(reviews := db.reviews[db.nextId := NewRow(d, db.clock)], nextId := db.nextId + 1)
  }

  lemma StoredRows(db: Db, d: Draft)
    requires Inv(db) && !Collides(db.reviews, d)
    ensures Keyed(Stored(db, d)) && OnePerAuthor(Stored(db, d).reviews)
    ensures forall k: nat :: k != db.nextId ==>
              Recorded(Stored(db, d).reviews, db.nextId + 1, k, LastKind(db.log, k))
    ensures LastKind(db.log, db.nextId) == None
  {
    assert Recorded(db.reviews, db.nextId, db.nextId, LastKind(db.log, db.nextId));
    forall k: nat | k != db.nextId
      ensures Recorded(Stored(db, d).reviews, db.nextId + 1, k, LastKind(db.log, k))
    {
      assert Recorded(db.reviews, db.nextId, k, LastKind(db.log, k));
    }
  }

  lemma InsertKeeps(db: Db, d: Draft)
    requires Inv(db) && !Collides(db.reviews, d) && d.status != Hidden
    ensures Inv(Insert(db, d))
  {
    if d.status == Published {
      StoredOwesFact(db, d);
      EmitPaysTheFact(Stored(db, d), PublishedFact, db.nextId, NewRow(d, db.clock), "");
    } else {
      PendingKeeps(db, d);
    }
  }

  lemma StoredOwesFact(db: Db, d: Draft)
    requires Inv(db) && !Collides(db.reviews, d) && d.status == Published
    ensures OwesFact(Stored(db, d), PublishedFact, db.nextId, d.target)
  {
    StoredRows(db, d);
    forall t | t != d.target
      ensures LastAggregate(db.log, t) == Live(Stored(db, d).reviews, db.nextId + 1, t)
    {
      LiveAfterInsert(db.reviews, db.nextId, NewRow(d, db.clock), t);
    }
  }

  lemma PendingKeeps(db: Db, d: Draft)
    requires Inv(db) && !Collides(db.reviews, d) && d.status == Pending
    ensures Inv(Stored(db, d))
  {
    StoredRows(db, d);
    forall t
      ensures LastAggregate(db.log, t) == Live(Stored(db, d).reviews, db.nextId + 1, t)
    {
      LiveAfterInsert(db.reviews, db.nextId, NewRow(d, db.clock), t);
    }
  }

  /** The store with the new status saved and its fact still to come. */
  ghost function Saved(db: Db, id: nat, status: Status): Db
    requires id in db.reviews
  {
    db.(reviews := db.reviews[id := db.reviews[id].(status := status, updatedAt := db.clock)])
  }

  lemma SavedRows(db: Db, id: nat, status: Status)
    requires Inv(db) && id in db.reviews
    ensures Keyed(Saved(db, id, status)) && OnePerAuthor(Saved(db, id, status).reviews)
    ensures forall k: nat :: k != id ==> Recorded(Saved(db, id, status).reviews, db.nextId, k, LastKind(db.log, k))
  {
    forall k: nat | k != id
      ensures Recorded(Saved(db, id, status).reviews, db.nextId, k, LastKind(db.log, k))
    {
      assert Recorded(db.reviews, db.nextId, k, LastKind(db.log, k));
    }
  }

  lemma SetStatusKeeps(db: Db, id: nat, status: Status, reason: string)
    requires Inv(db) && id in db.reviews && status != Pending
    ensures Inv(SetStatus(db, id, status, reason))
  {
    if db.reviews[id].status != status {
      var saved := Saved(db, id, status);
      SavedOwesFact(db, id, status);
      EmitPaysTheFact(saved, if status == Hidden then HiddenFact else PublishedFact, id, saved.reviews[id], reason);
    }
  }

  lemma SavedOwesFact(db: Db, id: nat, status: Status)
    requires Inv(db) && id in db.reviews && status != Pending && db.reviews[id].status != status
    ensures OwesFact(Saved(db, id, status), if status == Hidden then HiddenFact else PublishedFact, id, db.reviews[id].target)
  {
    var saved := Saved(db, id, status);
    SavedRows(db, id, status);
    assert Recorded(db.reviews, db.nextId, id, LastKind(db.log, id));
    forall t | t != db.reviews[id].target
      ensures Live(saved.reviews, saved.nextId, t) == Live(db.reviews, db.nextId, t)
    {
      LiveSame(db.reviews, saved.reviews, db.nextId, t);
    }
  }

  // ----- rows are removed and their facts are emitted -----

  lemma {:induction false} AnnounceTouchesLogOnly(db: Db, loaded: Table, ids: seq<nat>, reason: string)
    requires forall id :: id in ids ==> id in loaded
    ensures var db' := Announce(db, loaded, ids, reason);
            db' == db.(log := db'.log, clock := db'.clock)
  {
    if ids != [] { AnnounceTouchesLogOnly(db, loaded, ids[..|ids| - 1], reason); }
  }

  lemma FrontAndLast(ids: seq<nat>, k: nat)
    requires |ids| == k + 1
    ensures forall id :: id in ids <==> id in ids[..k] || id == ids[k]
  {
  }

  /** A run of hidden facts, read back. Every one of them carries the aggregate
      of the store they are emitted over. */
  lemma {:induction false} AnnounceAggregates(db: Db, loaded: Table, ids: seq<nat>, reason: string, t: Target)
    requires forall id :: id in ids ==> id in loaded
    ensures LastAggregate(Announce(db, loaded, ids, reason).log, t) ==
              if exists id :: id in ids && loaded[id].target == t
              then Live(db.reviews, db.nextId, t) else LastAggregate(db.log, t)
  {
    if ids != [] {
      var k := |ids| - 1;
      var mid := Announce(db, loaded, ids[..k], reason);
      AnnounceAggregates(db, loaded, ids[..k], reason, t);
      AnnounceTouchesLogOnly(db, loaded, ids[..k], reason);
      AppendedLast(mid.log, Announce(db, loaded, ids, reason).log[|mid.log|]);
      FrontAndLast(ids, k);
    }
  }

  lemma {:induction false} AnnounceKinds(db: Db, loaded: Table, ids: seq<nat>, reason: string, id: nat)
    requires forall i :: i in ids ==> i in loaded
    ensures LastKind(Announce(db, loaded, ids, reason).log, id) ==
              if id in ids then Some(HiddenFact) else LastKind(db.log, id)
  {
    if ids != [] {
      var k := |ids| - 1;
      var mid := Announce(db, loaded, ids[..k], reason);
      AnnounceKinds(db, loaded, ids[..k], reason, id);
      AppendedLast(mid.log, Announce(db, loaded, ids, reason).log[|mid.log|]);
      FrontAndLast(ids, k);
    }
  }

  lemma AnnounceLog(db: Db, loaded: Table, ids: seq<nat>, reason: string)
    requires forall id :: id in ids ==> id in loaded
    ensures var db' := Announce(db, loaded, ids, reason);
            && db' == db.(log := db'.log, clock := db'.clock)
            && (forall t :: LastAggregate(db'.log, t) ==
                  if exists id :: id in ids && loaded[id].target == t
                  then Live(db.reviews, db.nextId, t) else LastAggregate(db.log, t))
            && (forall id: nat :: LastKind(db'.log, id) == if id in ids then Some(HiddenFact) else LastKind(db.log, id))
  {
    AnnounceTouchesLogOnly(db, loaded, ids, reason);
    forall t { AnnounceAggregates(db, loaded, ids, reason, t); }
    forall id: nat { AnnounceKinds(db, loaded, ids, reason, id); }
  }

  lemma LastIsNew(ids: seq<nat>, k: nat)
    requires |ids| == k + 1 && Descending(ids)
    ensures ids[k] !in ids[..k] && Descending(ids[..k])
  {
  }

  lemma EmitAlternates(db: Db, id: nat, r: Review, reason: string)
    requires Alternates(db.log) && LastKind(db.log, id) != Some(HiddenFact)
    ensures Alternates(Emit(db, HiddenFact, id, r, reason).log)
  {
    var f := Emit(db, HiddenFact, id, r, reason).log[|db.log|];
    AppendedAlternates(db.log, f);
  }

  lemma {:induction false} AnnounceAlternates(db: Db, loaded: Table, ids: seq<nat>, reason: string)
    requires forall id :: id in ids ==> id in loaded && LastKind(db.log, id) == Some(PublishedFact)
    requires Descending(ids) && Alternates(db.log)
    ensures Alternates(Announce(db, loaded, ids, reason).log)
  {
    if ids != [] {
      var k := |ids| - 1;
      AnnounceAlternates(db, loaded, ids[..k], reason);
      AnnounceKinds(db, loaded, ids[..k], reason, ids[k]);
      LastIsNew(ids, k);
      EmitAlternates(Announce(db, loaded, ids[..k], reason), ids[k], loaded[ids[k]].(status := Hidden), reason);
    }
  }

  lemma {:induction false} AnnounceTimes(db: Db, loaded: Table, ids: seq<nat>, reason: string)
    requires forall id :: id in ids ==> id in loaded
    requires TimesRise(db.log, db.clock)
    ensures TimesRise(Announce(db, loaded, ids, reason).log, Announce(db, loaded, ids, reason).clock)
  {
    if ids != [] { AnnounceTimes(db, loaded, ids[..|ids| - 1], reason); }
  }

  lemma {:induction false} AnnounceCovers(db: Db, loaded: Table, ids: seq<nat>, reason: string, r: Review)
    requires forall id :: id in ids ==> id in loaded
    requires TimesRise(db.log, db.clock) && CoveredBy(r, LastTime(db.log, r.target))
    ensures CoveredBy(r, LastTime(Announce(db, loaded, ids, reason).log, r.target))
  {
    if ids != [] {
      var k := |ids| - 1;
      AnnounceCovers(db, loaded, ids[..k], reason, r);
      AnnounceTimes(db, loaded, ids[..k], reason);
      var mid := Announce(db, loaded, ids[..k], reason);
      AppendedCovers(mid.log, mid.clock, Announce(db, loaded, ids, reason).log[|mid.log|], r);
    }
  }

  /** `facts` are the hidden facts of `ids`, one each and in order, about the
      rows as they were loaded. */
  ghost predicate HiddenFacts(facts: seq<Fact>, ids: seq<nat>, loaded: Table, reason: string) {
    && |facts| == |ids|
    && forall k :: 0 <= k < |ids| ==> ids[k] in loaded && IsHiddenFact(facts[k], ids[k], loaded[ids[k]], reason)
  }

  ghost predicate IsHiddenFact(f: Fact, id: nat, r: Review, reason: string) {
    && f.kind == HiddenFact && f.status == Hidden && f.reason == reason
    && f.reviewId == id && f.target == r.target && f.author == r.author && f.rating == r.rating
  }

  lemma OneHiddenMore(start: seq<Fact>, mid: seq<Fact>, f: Fact, ids: seq<nat>, k: nat, loaded: Table, reason: string)
    requires |ids| == k + 1 && start <= mid && HiddenFacts(mid[|start|..], ids[..k], loaded, reason)
    requires ids[k] in loaded && IsHiddenFact(f, ids[k], loaded[ids[k]], reason)
    ensures start <= mid + [f] && HiddenFacts((mid + [f])[|start|..], ids, loaded, reason)
  {
    assert (mid + [f])[|start|..] == mid[|start|..] + [f];
  }

  lemma {:induction false} AnnounceFacts(db: Db, loaded: Table, ids: seq<nat>, reason: string)
    requires forall id :: id in ids ==> id in loaded
    ensures var log := Announce(db, loaded, ids, reason).log;
            db.log <= log && HiddenFacts(log[|db.log|..], ids, loaded, reason)
  {
    if ids != [] {
      var k := |ids| - 1;
      AnnounceFacts(db, loaded, ids[..k], reason);
      var mid, log := Announce(db, loaded, ids[..k], reason).log, Announce(db, loaded, ids, reason).log;
      assert log == mid + [log[|mid|]];
      OneHiddenMore(db.log, mid, log[|mid|], ids, k, loaded, reason);
    }
  }

  /** `ids` lists, newest first, exactly the visible rows among `gone`. */
  ghost predicate ListsVisible(m: Table, gone: set<nat>, ids: seq<nat>) {
    && Descending(ids)
    && (forall id: nat :: id in ids <==> id in gone && id in m && Visible(m[id].status))
  }

  /** Removing any rows and announcing the visible ones, once each and after
      the removal, keeps everything. */
  lemma RemoveAndAnnounceKeeps(db: Db, gone: set<nat>, responses: map<nat, Response>, ids: seq<nat>, reason: string)
    requires Inv(db) && ListsVisible(db.reviews, gone, ids)
    requires responses.Keys <= db.responses.Keys - gone
    ensures Inv(Announce(db.(reviews := db.reviews - gone, responses := responses), db.reviews, ids, reason))
  {
    var left := db.(reviews := db.reviews - gone, responses := responses);
    var db' := Announce(left, db.reviews, ids, reason);
    AnnounceLog(left, db.reviews, ids, reason);
    forall id | id in ids
      ensures LastKind(db.log, id) == Some(PublishedFact)
    {
      assert Recorded(db.reviews, db.nextId, id, LastKind(db.log, id));
    }
    AnnounceAlternates(left, db.reviews, ids, reason);
    RemovalProjected(db, gone, ids, left, db');
    RemovalRecorded(db, gone, ids, db');
    AnnounceTimes(left, db.reviews, ids, reason);
    forall id | id in left.reviews
      ensures CoveredBy(db'.reviews[id], LastTime(db'.log, db'.reviews[id].target))
    {
      AnnounceCovers(left, db.reviews, ids, reason, db.reviews[id]);
    }
  }

  lemma RemovalProjected(db: Db, gone: set<nat>, ids: seq<nat>, left: Db, db': Db)
    requires Projected(db) && ListsVisible(db.reviews, gone, ids)
    requires left.reviews == db.reviews - gone && left.nextId == db.nextId
    requires db'.reviews == left.reviews && db'.nextId == db.nextId
    requires forall t :: LastAggregate(db'.log, t) ==
               if exists id :: id in ids && db.reviews[id].target == t
               then Live(left.reviews, left.nextId, t) else LastAggregate(db.log, t)
    ensures Projected(db')
  {
    forall t
      ensures LastAggregate(db'.log, t) == Live(db'.reviews, db'.nextId, t)
    {
      if !exists id :: id in ids && db.reviews[id].target == t {
        LiveSame(db.reviews, left.reviews, db.nextId, t);
      }
    }
  }

  lemma RemovalRecorded(db: Db, gone: set<nat>, ids: seq<nat>, db': Db)
    requires Keyed(db) && Ledgered(db) && ListsVisible(db.reviews, gone, ids)
    requires db'.reviews == db.reviews - gone && db'.nextId == db.nextId
    requires forall id: nat :: LastKind(db'.log, id) == if id in ids then Some(HiddenFact) else LastKind(db.log, id)
    ensures forall id: nat :: Recorded(db'.reviews, db'.nextId, id, LastKind(db'.log, id))
  {
    forall id: nat
      ensures Recorded(db'.reviews, db'.nextId, id, LastKind(db'.log, id))
    {
      assert Recorded(db.reviews, db.nextId, id, LastKind(db.log, id));
    }
  }

  lemma EraseKeeps(db: Db, u: UserId)
    requires Inv(db)
    ensures Inv(Erase(db, u))
  {
    var gone, ids := IdsOf(db.reviews, AuthoredBy(u)), NewestFirst(db.reviews, db.nextId, VisibleBy(u));
    NewestFirstIds(db.reviews, db.nextId, VisibleBy(u));
    RemoveAndAnnounceKeeps(db, gone, DropResponsesBy(RemoveRows(db, gone), u).responses, ids, "erased");
  }

  ghost predicate SomeAbout(m: Table, ids: seq<nat>, t: Target) {
    exists id :: id in ids && id in m && m[id].target == t
  }

  /** Taking a visible row of the target away lowers its count. */
  lemma RemovalLowersCount(m: Table, n: nat, gone: set<nat>, t: Target, id: nat)
    requires id < n && id in m && id in gone && OfTarget(t)(m[id])
    ensures Live(m - gone, n, t).count < Live(m, n, t).count
  {
    TallyCountsRows(m, n, OfTarget(t));
    TallyCountsRows(m - gone, n, OfTarget(t));
    var before, after := IdsWhere(m, n, OfTarget(t)), IdsWhere(m - gone, n, OfTarget(t));
    assert after <= before - {id};
    FewerThan(after, before, id);
  }

  lemma FewerThan(after: set<nat>, before: set<nat>, id: nat)
    requires after <= before - {id} && id in before
    ensures |after| < |before|
  {
    SubsetIsNoLarger(after, before - {id});
  }

  lemma {:induction false} SubsetIsNoLarger<T>(a: set<T>, b: set<T>)
    requires a <= b
    ensures |a| <= |b|
  {
    if a != {} {
      var x :| x in a;
      SubsetIsNoLarger(a - {x}, b - {x});
    }
  }

  /** In the middle of a removal, with the first `k` facts out, facts and rows
      agree about a target if and only if nothing visible of it went or its fact
      is among those: agreement returns with the facts, not with the removal. */
  lemma AgreesDuringRemoval(db: Db, gone: set<nat>, ids: seq<nat>, reason: string, k: nat, t: Target)
    requires Inv(db) && ListsVisible(db.reviews, gone, ids) && k <= |ids|
    ensures var mid := Announce(db.(reviews := db.reviews - gone), db.reviews, ids[..k], reason);
            LastAggregate(mid.log, t) == Live(mid.reviews, mid.nextId, t)
            <==> !SomeAbout(db.reviews, ids, t) || SomeAbout(db.reviews, ids[..k], t)
  {
    var left := db.(reviews := db.reviews - gone);
    AnnounceAggregates(left, db.reviews, ids[..k], reason, t);
    AnnounceTouchesLogOnly(left, db.reviews, ids[..k], reason);
    if SomeAbout(db.reviews, ids, t) {
      var id :| id in ids && id in db.reviews && db.reviews[id].target == t;
      RemovalLowersCount(db.reviews, db.nextId, gone, t, id);
    } else {
      LiveSame(db.reviews, left.reviews, db.nextId, t);
    }
  }
}
