/** user.merged: what the transfer leaves behind, row by row, and why no row of
    it can trip over the unique constraint. */
module Merging {
  import opened Model
  import opened Registry
  import opened Aggregates
  import opened Engine
  import opened Invariants

  // ----- the duplicate loop -----

  /** The duplicate keeps its row but loses its flag. */
  predicate Unflagged(env: Env, taken: set<Target>, r: Review) {
    r.target in taken && !OnePer(env, r.target.ttype)
  }

  /** The table once the rows in `handled` have been through the loop. */
  ghost function Folded(env: Env, taken: set<Target>, handled: set<nat>, m: Table): Table {
    map id | id in m && !(id in handled && Doomed(env, taken, m[id])) ::
      if id in handled && Unflagged(env, taken, m[id]) then m[id].(uniquePerAuthor := false) else m[id]
  }

  ghost function DoomedIds(env: Env, taken: set<Target>, handled: set<nat>, m: Table): set<nat> {
    set id | id in m && id in handled && Doomed(env, taken, m[id])
  }

  function Elements(ids: seq<nat>): set<nat> {
    set id | id in ids
  }

  /** The loop, read as one filter over the table it started from. */
  lemma {:induction false} DropDuplicatesTables(db: Db, env: Env, ids: seq<nat>, taken: set<Target>)
    requires Descending(ids) && forall id :: id in ids ==> id in db.reviews
    ensures var db' := DropDuplicates(db, env, db.reviews, ids, taken);
            && db'.reviews == Folded(env, taken, Elements(ids), db.reviews)
            && db'.responses == db.responses - DoomedIds(env, taken, Elements(ids), db.reviews)
            && db'.nextId == db.nextId
  {
    if ids == [] {
      assert Folded(env, taken, Elements(ids), db.reviews) == db.reviews;
      assert DoomedIds(env, taken, Elements(ids), db.reviews) == {};
    } else {
      var k := |ids| - 1;
      DropDuplicatesTables(db, env, ids[..k], taken);
      OneMoreHandled(env, taken, ids, db.reviews);
      assert ids[k] !in Elements(ids[..k]);
      DropStepTables(DropDuplicates(db, env, db.reviews, ids[..k], taken), env, db.reviews, ids[k], taken,
                     Elements(ids[..k]), db.responses);
    }
  }

  lemma {:induction false} DroppedIsDoomed(env: Env, m: Table, ids: seq<nat>, taken: set<Target>)
    requires Descending(ids) && forall id :: id in ids ==> id in m
    ensures DroppedCount(env, m, ids, taken) == |DoomedIds(env, taken, Elements(ids), m)|
  {
    if ids == [] {
      assert DoomedIds(env, taken, Elements(ids), m) == {};
    } else {
      DroppedIsDoomed(env, m, ids[..|ids| - 1], taken);
      OneMoreHandled(env, taken, ids, m);
      assert ids[|ids| - 1] !in Elements(ids[..|ids| - 1]);
    }
  }

  lemma OneMoreHandled(env: Env, taken: set<Target>, ids: seq<nat>, m: Table)
    requires ids != [] && ids[|ids| - 1] in m
    ensures var k := |ids| - 1;
            && Elements(ids) == Elements(ids[..k]) + {ids[k]}
            && DoomedIds(env, taken, Elements(ids), m)
               == DoomedIds(env, taken, Elements(ids[..k]), m)
                  + (if Doomed(env, taken, m[ids[k]]) then {ids[k]} else {})
  {
    assert ids == ids[..|ids| - 1] + [ids[|ids| - 1]];
  }

  lemma DropStepTables(db: Db, env: Env, m: Table, id: nat, taken: set<Target>, handled: set<nat>,
                       responses: map<nat, Response>)
    requires id in m && id !in handled
    requires db.reviews == Folded(env, taken, handled, m)
    requires db.responses == responses - DoomedIds(env, taken, handled, m)
    ensures var db' := DropStep(db, env, m, id, taken);
            && db'.reviews == Folded(env, taken, handled + {id}, m)
            && db'.responses == responses - DoomedIds(env, taken, handled + {id}, m)
            && db'.nextId == db.nextId
  {
    var doomed := DoomedIds(env, taken, handled, m);
    assert db.reviews[id] == m[id];
    FoldedOneMore(env, taken, handled, m, id);
    if Doomed(env, taken, m[id]) {
      assert DoomedIds(env, taken, handled + {id}, m) == doomed + {id};
      assert responses - doomed - {id} == responses - (doomed + {id});
    } else {
      assert DoomedIds(env, taken, handled + {id}, m) == doomed;
    }
  }

  lemma FoldedOneMore(env: Env, taken: set<Target>, handled: set<nat>, m: Table, id: nat)
    requires id in m && id !in handled
    ensures var f, f' := Folded(env, taken, handled, m), Folded(env, taken, handled + {id}, m);
            f' == if Doomed(env, taken, m[id]) then f - {id}
                  else if Unflagged(env, taken, m[id]) then f[id := m[id].(uniquePerAuthor := false)]
                  else f
  {
  }

  /** The loop after `k` guest reviews. */
  ghost predicate Dropping(start: Db, env: Env, loaded: Table, ids: seq<nat>, k: nat, taken: set<Target>, db: Db, dropped: nat) {
    && k <= |ids| && (forall id :: id in ids ==> id in loaded)
    && db == DropDuplicates(start, env, loaded, ids[..k], taken)
    && dropped == DroppedCount(env, loaded, ids[..k], taken)
  }

  lemma DroppingNone(start: Db, env: Env, loaded: Table, ids: seq<nat>, taken: set<Target>)
    requires forall id :: id in ids ==> id in loaded
    ensures Dropping(start, env, loaded, ids, 0, taken, start, 0)
  {
  }

  lemma DroppingOne(start: Db, env: Env, loaded: Table, ids: seq<nat>, k: nat, taken: set<Target>, db: Db, dropped: nat)
    requires Dropping(start, env, loaded, ids, k, taken, db, dropped) && k < |ids|
    ensures Dropping(start, env, loaded, ids, k + 1, taken, DropStep(db, env, loaded, ids[k], taken),
                     dropped + (if Doomed(env, taken, loaded[ids[k]]) then 1 else 0))
  {
    assert ids[..k + 1][..k] == ids[..k];
  }

  lemma DroppingAll(start: Db, env: Env, loaded: Table, ids: seq<nat>, taken: set<Target>, db: Db, dropped: nat)
    requires Dropping(start, env, loaded, ids, |ids|, taken, db, dropped)
    ensures db == DropDuplicates(start, env, loaded, ids, taken) && dropped == DroppedCount(env, loaded, ids, taken)
  {
    assert ids[..|ids|] == ids;
  }

  /** Every pass of the loop leaves facts and rows in step. */
  lemma {:induction false} DropDuplicatesKeeps(db: Db, env: Env, ids: seq<nat>, taken: set<Target>)
    requires Inv(db)
    requires Descending(ids) && forall id :: id in ids ==> id in db.reviews
    ensures Inv(DropDuplicates(db, env, db.reviews, ids, taken))
  {
    if ids != [] {
      var k := |ids| - 1;
      DropDuplicatesKeeps(db, env, ids[..k], taken);
      DropDuplicatesTables(db, env, ids[..k], taken);
      assert ids[k] !in Elements(ids[..k]);
      DropStepKeeps(DropDuplicates(db, env, db.reviews, ids[..k], taken), env, db.reviews, ids[k], taken);
    }
  }

  lemma DropStepKeeps(db: Db, env: Env, loaded: Table, id: nat, taken: set<Target>)
    requires Inv(db) && id in loaded && id in db.reviews && db.reviews[id] == loaded[id]
    ensures Inv(DropStep(db, env, loaded, id, taken))
  {
    if Unflagged(env, taken, loaded[id]) {
      RelabelKeeps(db, ClearFlag(db, id).reviews, db.responses);
    } else if Doomed(env, taken, loaded[id]) {
      var ids := if Visible(loaded[id].status) then [id] else [];
      var removed := RemoveRows(db, {id});
      RemoveAndAnnounceKeeps(db, {id}, removed.responses, ids, "merged_duplicate");
      AnnounceOne(removed, db.reviews, id, "merged_duplicate");
    }
  }

  lemma AnnounceOne(db: Db, loaded: Table, id: nat, reason: string)
    requires id in loaded
    ensures Announce(db, loaded, [], reason) == db
    ensures Announce(db, loaded, [id], reason)
         == Emit(db, HiddenFact, id, loaded[id].(status := Hidden), reason)
  {
    assert [id][..0] == [];
  }

  // ----- moving the rows -----

  /** No flagged row of the guest meets a flagged row of the survivor. */
  ghost predicate SafeToMove(m: Table, from: UserId, into: UserId) {
    forall i, j :: i in m && j in m && m[i].uniquePerAuthor && m[j].uniquePerAuthor &&
                   m[i].author == from && m[j].author == into ==>
      m[i].target != m[j].target
  }

  /** Whatever order the update takes the rows in, the constraint holds after
      each one. */
  lemma EveryMoveKeepsConstraint(m: Table, reached: set<nat>, from: UserId, into: UserId)
    requires OnePerAuthor(m) && SafeToMove(m, from, into) && from != into
    ensures OnePerAuthor(Reauthor(m, reached, from, into))
  {
  }

  /** One row of the update. */
  lemma ReauthorOne(m: Table, reached: set<nat>, id: nat, from: UserId, into: UserId)
    requires id in m && id !in reached
    ensures Reauthor(m, reached, from, into)[id] == m[id]
    ensures Reauthor(m, reached + {id}, from, into)
         == if m[id].author == from
            then Reauthor(m, reached, from, into)[id := m[id].(author := into)]
            else Reauthor(m, reached, from, into)
  {
  }

  /** The update in progress: the rows reached have moved, and the constraint
      holds as it stands. */
  ghost predicate Moving(m: Table, reached: set<nat>, from: UserId, into: UserId, now: Table) {
    now == Reauthor(m, reached, from, into) && OnePerAuthor(now)
  }

  lemma MoveOne(m: Table, reached: set<nat>, id: nat, from: UserId, into: UserId, now: Table)
    requires OnePerAuthor(m) && SafeToMove(m, from, into) && from != into
    requires id in m && id !in reached && Moving(m, reached, from, into, now)
    ensures id in now
    ensures Moving(m, reached + {id}, from, into,
                   if now[id].author == from then now[id := now[id].(author := into)] else now)
  {
    ReauthorOne(m, reached, id, from, into);
    EveryMoveKeepsConstraint(m, reached + {id}, from, into);
  }

  lemma OneLess(all: set<nat>, pending: set<nat>, id: nat)
    requires pending <= all && id in pending
    ensures all - (pending - {id}) == (all - pending) + {id}
  {
  }

  lemma MoveNone(m: Table, from: UserId, into: UserId)
    requires OnePerAuthor(m)
    ensures Moving(m, {}, from, into, m)
  {
    assert Reauthor(m, {}, from, into) == m;
  }

  lemma FoldedIsSafe(env: Env, m: Table, from: UserId, into: UserId)
    requires from != into
    ensures SafeToMove(Folded(env, TargetsBy(m, into), IdsOf(m, AuthoredBy(from)), m), from, into)
  {
    var taken := TargetsBy(m, into);
    forall j | j in m && m[j].author == into
      ensures m[j].target in taken
    {
    }
  }

  lemma GuestIds(db: Db, u: UserId)
    requires Keyed(db)
    ensures var ids := NewestFirst(db.reviews, db.nextId, AuthoredBy(u));
            && Descending(ids)
            && (forall id :: id in ids ==> id in db.reviews)
            && Elements(ids) == IdsOf(db.reviews, AuthoredBy(u))
  {
    NewestFirstIds(db.reviews, db.nextId, AuthoredBy(u));
  }

  /** What the loop guarantees to the update that follows it. */
  lemma FoldKeepsMovable(db: Db, env: Env, from: UserId, into: UserId)
    requires Inv(db) && from != into
    ensures var ids := NewestFirst(db.reviews, db.nextId, AuthoredBy(from));
            && (forall id :: id in ids ==> id in db.reviews)
            && var folded := DropDuplicates(db, env, db.reviews, ids, TargetsBy(db.reviews, into));
            Inv(folded) && SafeToMove(folded.reviews, from, into)
  {
    var ids, taken := NewestFirst(db.reviews, db.nextId, AuthoredBy(from)), TargetsBy(db.reviews, into);
    GuestIds(db, from);
    DropDuplicatesKeeps(db, env, ids, taken);
    DropDuplicatesTables(db, env, ids, taken);
    FoldedIsSafe(env, db.reviews, from, into);
  }

  lemma CarryOverKeeps(db: Db, env: Env, from: UserId, into: UserId)
    requires Inv(db) && from != into
    ensures Inv(CarryOver(db, env, from, into))
  {
    FoldKeepsMovable(db, env, from, into);
    var ids := NewestFirst(db.reviews, db.nextId, AuthoredBy(from));
    var folded := DropDuplicates(db, env, db.reviews, ids, TargetsBy(db.reviews, into));
    EveryMoveKeepsConstraint(folded.reviews, folded.reviews.Keys, from, into);
    RelabelKeeps(folded, Reauthor(folded.reviews, folded.reviews.Keys, from, into),
                 ReauthorResponses(folded.responses, from, into));
  }

  // ----- the exact post-state -----

  /** The guest's row on a target the survivor reviewed, under the policy. */
  ghost predicate Dropped(env: Env, m: Table, from: UserId, into: UserId, r: Review) {
    r.author == from && Doomed(env, TargetsBy(m, into), r)
  }

  /** A kept row after the transfer: the guest's change hands, and lose their
      flag where the survivor had reviewed the target. */
  function Transferred(m: Table, from: UserId, into: UserId, r: Review): Review {
    if r.author != from then r
    else r.(author := into, uniquePerAuthor := r.uniquePerAuthor && r.target !in TargetsBy(m, into))
  }

  ghost function TransferredTable(env: Env, m: Table, from: UserId, into: UserId): Table {
    map id | id in m && !Dropped(env, m, from, into, m[id]) :: Transferred(m, from, into, m[id])
  }

  lemma FoldedThenMoved(env: Env, m: Table, from: UserId, into: UserId)
    ensures var folded := Folded(env, TargetsBy(m, into), IdsOf(m, AuthoredBy(from)), m);
            Reauthor(folded, folded.Keys, from, into) == TransferredTable(env, m, from, into)
  {
    var guests, taken := IdsOf(m, AuthoredBy(from)), TargetsBy(m, into);
    var folded, moved := Folded(env, taken, guests, m), TransferredTable(env, m, from, into);
    forall id | id in m
      ensures id in folded <==> id in moved
      ensures id in moved ==> Reauthor(folded, folded.Keys, from, into)[id] == moved[id]
    {
      FoldedRow(env, taken, guests, m, id, from);
    }
  }

  lemma FoldedRow(env: Env, taken: set<Target>, guests: set<nat>, m: Table, id: nat, from: UserId)
    requires id in m && guests == IdsOf(m, AuthoredBy(from))
    ensures id in guests <==> m[id].author == from
    ensures var folded := Folded(env, taken, guests, m);
            && (id in folded <==> !(m[id].author == from && Doomed(env, taken, m[id])))
            && (id in folded ==>
                  folded[id] == (if m[id].author == from && Unflagged(env, taken, m[id])
                                 then m[id].(uniquePerAuthor := false) else m[id]))
  {
  }

  lemma MergedRows(db: Db, env: Env, from: UserId, into: UserId)
    requires Keyed(db) && from != into
    ensures var db' := CarryOver(db, env, from, into);
            && db'.reviews == TransferredTable(env, db.reviews, from, into)
            && db'.responses == ReauthorResponses(
                 db.responses - DoomedIds(env, TargetsBy(db.reviews, into), IdsOf(db.reviews, AuthoredBy(from)), db.reviews),
                 from, into)
            && db'.nextId == db.nextId
  {
    GuestIds(db, from);
    DropDuplicatesTables(db, env, NewestFirst(db.reviews, db.nextId, AuthoredBy(from)), TargetsBy(db.reviews, into));
    FoldedThenMoved(env, db.reviews, from, into);
  }

  lemma MergedResponses(env: Env, m: Table, rs: map<nat, Response>, from: UserId, into: UserId)
    requires rs.Keys <= m.Keys
    ensures ReauthorResponses(rs - DoomedIds(env, TargetsBy(m, into), IdsOf(m, AuthoredBy(from)), m), from, into)
         == TransferredResponses(rs, TransferredTable(env, m, from, into).Keys, from, into)
  {
    DoomedAreTheDropped(env, m, from, into);
    assert forall id :: id in rs ==> id in m;
  }

  lemma DoomedAreTheDropped(env: Env, m: Table, from: UserId, into: UserId)
    ensures var doomed := DoomedIds(env, TargetsBy(m, into), IdsOf(m, AuthoredBy(from)), m);
            && doomed <= m.Keys
            && TransferredTable(env, m, from, into).Keys <= m.Keys
            && forall id :: id in m ==> (id in doomed <==> id !in TransferredTable(env, m, from, into))
  {
  }

  /** The replies on kept reviews, the guest's own under the survivor's name. */
  ghost function TransferredResponses(rs: map<nat, Response>, kept: set<nat>, from: UserId, into: UserId): map<nat, Response> {
    map id | id in rs && id in kept ::
      if rs[id].author == from then rs[id].(author := into) else rs[id]
  }

  lemma MergePostState(db: Db, env: Env, from: UserId, into: UserId)
    requires Keyed(db) && from != into
    ensures var db', kept := CarryOver(db, env, from, into), TransferredTable(env, db.reviews, from, into);
            && db'.reviews == kept
            && db'.responses == TransferredResponses(db.responses, kept.Keys, from, into)
            && db'.nextId == db.nextId
  {
    MergedRows(db, env, from, into);
    MergedResponses(env, db.reviews, db.responses, from, into);
  }

  ghost function Authored(m: Table, u: UserId, t: Target): set<nat> {
    set id | id in m && m[id].author == u && m[id].target == t
  }

  /** Who has which reviews of a target afterwards: where the policy holds and
      the survivor had one, the survivor keeps just its own; everywhere else it
      has both accounts' rows. */
  lemma MergeFoldsPerTarget(db: Db, env: Env, from: UserId, into: UserId, t: Target)
    requires Keyed(db) && from != into
    ensures var m, m' := db.reviews, CarryOver(db, env, from, into).reviews;
            && Authored(m', from, t) == {}
            && (Authored(m, into, t) != {} && OnePer(env, t.ttype) ==>
                  Authored(m', into, t) == Authored(m, into, t))
            && (!(Authored(m, into, t) != {} && OnePer(env, t.ttype)) ==>
                  Authored(m', into, t) == Authored(m, into, t) + Authored(m, from, t))
  {
    MergedRows(db, env, from, into);
    TakenMeansAuthored(db.reviews, into, t);
    SurvivorsRows(env, db.reviews, from, into, t);
  }

  lemma SurvivorsRows(env: Env, m: Table, from: UserId, into: UserId, t: Target)
    requires from != into
    ensures var m' := TransferredTable(env, m, from, into);
            && Authored(m', from, t) == {}
            && Authored(m', into, t) == Authored(m, into, t)
                 + (if t in TargetsBy(m, into) && OnePer(env, t.ttype) then {} else Authored(m, from, t))
  {
  }

  /** Nobody else's rows are touched. */
  lemma MergeLeavesOthers(db: Db, env: Env, from: UserId, into: UserId, id: nat)
    requires Keyed(db) && from != into
    requires id in db.reviews && db.reviews[id].author != from
    ensures var m' := CarryOver(db, env, from, into).reviews;
            id in m' && m'[id] == db.reviews[id]
  {
    MergedRows(db, env, from, into);
  }

  /** A merge does not always leave one review each where the policy asks for it:
      the survivor has at most one review of the target afterwards if and only
      if it had at most one before and, when it had none, neither did the guest
      have several. */
  lemma MergeLeavesOneEachIff(db: Db, env: Env, from: UserId, into: UserId, t: Target)
    requires Keyed(db) && from != into && OnePer(env, t.ttype)
    ensures var m, m' := db.reviews, CarryOver(db, env, from, into).reviews;
            |Authored(m', into, t)| <= 1 <==>
              |Authored(m, into, t)| <= 1 && (Authored(m, into, t) == {} ==> |Authored(m, from, t)| <= 1)
  {
    MergeFoldsPerTarget(db, env, from, into, t);
    var own, guests := Authored(db.reviews, into, t), Authored(db.reviews, from, t);
    if own == {} { assert own + guests == guests; }
  }

  lemma TakenMeansAuthored(m: Table, u: UserId, t: Target)
    ensures t in TargetsBy(m, u) <==> Authored(m, u, t) != {}
  {
    if t in TargetsBy(m, u) {
      var id :| id in m && m[id].author == u && m[id].target == t;
      assert id in Authored(m, u, t);
    }
    if Authored(m, u, t) != {} {
      var id :| id in Authored(m, u, t);
      assert m[id].target in TargetsBy(m, u);
    }
  }

  lemma TransferKeepsOrDrops(env: Env, m: Table, from: UserId, into: UserId)
    ensures |m| == |TransferredTable(env, m, from, into)|
                   + |DoomedIds(env, TargetsBy(m, into), IdsOf(m, AuthoredBy(from)), m)|
  {
    DoomedAreTheDropped(env, m, from, into);
    SplitCount(m, TransferredTable(env, m, from, into),
               DoomedIds(env, TargetsBy(m, into), IdsOf(m, AuthoredBy(from)), m));
  }

  lemma SplitCount(m: Table, kept: Table, gone: set<nat>)
    requires kept.Keys <= m.Keys && gone <= m.Keys
    requires forall id :: id in m ==> (id in gone <==> id !in kept)
    ensures |m| == |kept| + |gone|
  {
    assert m.Keys == kept.Keys + gone;
    assert |m.Keys| == |kept.Keys| + |gone|;
  }

  lemma CarryOverCountsTheDropped(db: Db, env: Env, from: UserId, into: UserId)
    requires Keyed(db) && from != into
    ensures var ids := NewestFirst(db.reviews, db.nextId, AuthoredBy(from));
            && (forall id :: id in ids ==> id in db.reviews)
            && |db.reviews| == |CarryOver(db, env, from, into).reviews|
                               + DroppedCount(env, db.reviews, ids, TargetsBy(db.reviews, into))
  {
    GuestIds(db, from);
    DroppedIsDoomed(env, db.reviews, NewestFirst(db.reviews, db.nextId, AuthoredBy(from)), TargetsBy(db.reviews, into));
    MergedRows(db, env, from, into);
    TransferKeepsOrDrops(env, db.reviews, from, into);
  }

  /** Rows are conserved: those that go are exactly the ones counted. A merge
      that must wait leaves the store alone. */
  lemma MergeCountsTheDropped(db: Db, env: Env, from: UserId, into: UserId, survivorExists: bool)
    requires Keyed(db)
    ensures var (db', res) := Merge(db, env, from, into, survivorExists);
            && (res.Ok? ==> |db.reviews| == |db'.reviews| + res.value)
            && (res.Err? ==> db' == db)
  {
    if from != into { CarryOverCountsTheDropped(db, env, from, into); }
  }

  // ----- the facts of a merge -----

  /** The ids whose deletion the loop announces. */
  ghost function Announced(env: Env, loaded: Table, ids: seq<nat>, taken: set<Target>): seq<nat>
    requires forall id :: id in ids ==> id in loaded
  {
    if ids == [] then []
    else
      var k := |ids| - 1;
      Announced(env, loaded, ids[..k], taken)
      + (if Doomed(env, taken, loaded[ids[k]]) && Visible(loaded[ids[k]].status) then [ids[k]] else [])
  }

  lemma {:induction false} AnnouncedIds(env: Env, loaded: Table, ids: seq<nat>, taken: set<Target>)
    requires Descending(ids) && forall id :: id in ids ==> id in loaded
    ensures var announced := Announced(env, loaded, ids, taken);
            && (forall id :: id in announced <==>
                  id in ids && Doomed(env, taken, loaded[id]) && Visible(loaded[id].status))
            && Descending(announced)
  {
    if ids != [] {
      var k := |ids| - 1;
      AnnouncedIds(env, loaded, ids[..k], taken);
      FrontAndLast(ids, k);
      StaysDescending(Announced(env, loaded, ids[..k], taken), ids, k);
    }
  }

  lemma StaysDescending(front: seq<nat>, ids: seq<nat>, k: nat)
    requires |ids| == k + 1 && Descending(ids) && Descending(front)
    requires forall id :: id in front ==> id in ids[..k]
    ensures Descending(front + [ids[k]])
  {
    forall i | 0 <= i < |front|
      ensures front[i] > ids[k]
    {
      assert front[i] in ids[..k];
    }
  }

  lemma {:induction false} DropDuplicatesFacts(db: Db, env: Env, loaded: Table, ids: seq<nat>, taken: set<Target>)
    requires forall id :: id in ids ==> id in loaded
    ensures var log := DropDuplicates(db, env, loaded, ids, taken).log;
            db.log <= log && HiddenFacts(log[|db.log|..], Announced(env, loaded, ids, taken), loaded, "merged_duplicate")
  {
    if ids != [] {
      var k := |ids| - 1;
      DropDuplicatesFacts(db, env, loaded, ids[..k], taken);
      DropStepFacts(DropDuplicates(db, env, loaded, ids[..k], taken), db.log, env, loaded, ids[k], taken,
                    Announced(env, loaded, ids[..k], taken));
    }
  }

  lemma DropStepFacts(db: Db, start: seq<Fact>, env: Env, loaded: Table, id: nat, taken: set<Target>, sofar: seq<nat>)
    requires id in loaded && start <= db.log && HiddenFacts(db.log[|start|..], sofar, loaded, "merged_duplicate")
    ensures var log := DropStep(db, env, loaded, id, taken).log;
            && start <= log
            && HiddenFacts(log[|start|..],
                           sofar + (if Doomed(env, taken, loaded[id]) && Visible(loaded[id].status) then [id] else []),
                           loaded, "merged_duplicate")
  {
    var log := DropStep(db, env, loaded, id, taken).log;
    if Doomed(env, taken, loaded[id]) && Visible(loaded[id].status) {
      assert log[|start|..] == db.log[|start|..] + [log[|db.log|]];
    }
  }

  /** A merge emits one hidden fact for each visible row it drops, newest first,
      and nothing else: not for a dropped row nobody could see, and not for a
      row that only changes hands. */
  lemma MergeFacts(db: Db, env: Env, from: UserId, into: UserId) returns (announced: seq<nat>)
    requires Keyed(db) && from != into
    ensures var log := CarryOver(db, env, from, into).log;
            db.log <= log && HiddenFacts(log[|db.log|..], announced, db.reviews, "merged_duplicate")
    ensures Descending(announced)
    ensures forall id :: id in announced <==>
              id in db.reviews && Dropped(env, db.reviews, from, into, db.reviews[id]) && Visible(db.reviews[id].status)
  {
    var ids, taken := NewestFirst(db.reviews, db.nextId, AuthoredBy(from)), TargetsBy(db.reviews, into);
    GuestIds(db, from);
    announced := Announced(env, db.reviews, ids, taken);
    AnnouncedIds(env, db.reviews, ids, taken);
    DropDuplicatesFacts(db, env, db.reviews, ids, taken);
    assert forall id :: id in ids <==> id in IdsOf(db.reviews, AuthoredBy(from));
  }

  // ----- redelivery -----

  lemma MergeEmptiesGuest(db: Db, env: Env, from: UserId, into: UserId, survivorExists: bool)
    requires Keyed(db) && from != "" && into != "" && from != into
    ensures var (db', res) := Merge(db, env, from, into, survivorExists);
            res.Ok? ==> !OwnsSomething(db', from)
  {
    if OwnsSomething(db, from) && survivorExists { CarryOverEmptiesGuest(db, env, from, into); }
  }

  lemma CarryOverEmptiesGuest(db: Db, env: Env, from: UserId, into: UserId)
    requires Keyed(db) && from != into
    ensures !OwnsSomething(CarryOver(db, env, from, into), from)
  {
    MergedRows(db, env, from, into);
  }
}
