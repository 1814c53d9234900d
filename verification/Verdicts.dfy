/** moderation.completed: what any stream of verdicts amounts to. */
module Verdicts {
  import opened Model
  import opened Engine

  /** The status this event moves review `id` to, if it is about it and acts. */
  function Moves(ours: string, e: VerdictEvent, id: nat): Option<Status> {
    if e.targetType == ours && e.key == Names(id) && VerdictStatus(e.decision).Ok?
    then VerdictStatus(e.decision).value
    else None
  }

  function Deliver(db: Db, ours: string, es: seq<VerdictEvent>): Db {
    if es == [] then db
    else HandleModerationCompleted(Deliver(db, ours, es[..|es| - 1]), ours, es[|es| - 1])
  }

  /** The status the last acting verdict on `id` asked for. */
  function LastMove(ours: string, es: seq<VerdictEvent>, id: nat, initial: Status): Status {
    if es == [] then initial
    else
      match Moves(ours, es[|es| - 1], id)
      case Some(s) => s
      case None => LastMove(ours, es[..|es| - 1], id, initial)
  }

  /** How many times that status really changes along the stream. */
  function Changes(ours: string, es: seq<VerdictEvent>, id: nat, initial: Status): nat {
    if es == [] then 0
    else
      var before := LastMove(ours, es[..|es| - 1], id, initial);
      Changes(ours, es[..|es| - 1], id, initial)
      + (if LastMove(ours, es, id, initial) != before then 1 else 0)
  }

  function FactsAbout(log: seq<Fact>, id: nat): nat {
    if log == [] then 0
    else FactsAbout(log[..|log| - 1], id) + (if log[|log| - 1].reviewId == id then 1 else 0)
  }

  lemma OneFactMore(log: seq<Fact>, f: Fact, id: nat)
    ensures FactsAbout(log + [f], id) == FactsAbout(log, id) + (if f.reviewId == id then 1 else 0)
  {
    assert (log + [f])[..|log|] == log;
  }

  /** One event: the row ends where the event moves it, and a fact is emitted
      exactly when that is somewhere new. */
  lemma OneEvent(db: Db, ours: string, e: VerdictEvent, id: nat)
    requires id in db.reviews
    ensures var db' := HandleModerationCompleted(db, ours, e);
            var s := Moves(ours, e, id);
            && id in db'.reviews
            && db'.reviews[id].status == (if s.Some? then s.value else db.reviews[id].status)
            && FactsAbout(db'.log, id)
               == FactsAbout(db.log, id) + (if db'.reviews[id].status != db.reviews[id].status then 1 else 0)
  {
    var db' := HandleModerationCompleted(db, ours, e);
    if db' != db && db'.log != db.log {
      OneFactMore(db.log, db'.log[|db.log|], id);
      assert db'.log == db.log + [db'.log[|db.log|]];
    }
  }

  /** Any stream, about any reviews, with anything malformed in it: the review
      ends with the last approved/rejected it received, and is the subject of
      one fact per real change of status. */
  lemma {:induction false} StreamOutcome(db: Db, ours: string, es: seq<VerdictEvent>, id: nat)
    requires id in db.reviews
    ensures var db' := Deliver(db, ours, es);
            && id in db'.reviews
            && db'.reviews[id].status == LastMove(ours, es, id, db.reviews[id].status)
            && FactsAbout(db'.log, id) == FactsAbout(db.log, id) + Changes(ours, es, id, db.reviews[id].status)
  {
    if es != [] {
      var k := |es| - 1;
      StreamOutcome(db, ours, es[..k], id);
      OneEvent(Deliver(db, ours, es[..k]), ours, es[k], id);
    }
  }

  /** The vocabulary: approved makes a review visible and rejected hides it,
      whatever its status and policy were; every other word, a foreign target
      type, a missing or malformed key and an unknown review leave everything. */
  lemma VerdictVocabulary(db: Db, ours: string, e: VerdictEvent)
    ensures var db' := HandleModerationCompleted(db, ours, e);
            var about := e.targetType == ours && e.key.Names? && e.key.id in db.reviews;
            && (about && e.decision == "approved" ==> e.key.id in db'.reviews && Visible(db'.reviews[e.key.id].status))
            && (about && e.decision == "rejected" ==> e.key.id in db'.reviews && db'.reviews[e.key.id].status == Hidden)
            && (!about || (e.decision != "approved" && e.decision != "rejected") ==> db' == db)
  {
  }

  lemma {:induction false} DeliverSplits(db: Db, ours: string, a: seq<VerdictEvent>, b: seq<VerdictEvent>)
    ensures Deliver(db, ours, a + b) == Deliver(Deliver(db, ours, a), ours, b)
    decreases |b|
  {
    if b == [] {
      assert a + b == a;
    } else {
      var k := |b| - 1;
      DeliverSplits(db, ours, a, b[..k]);
      assert (a + b)[..|a + b| - 1] == a + b[..k];
    }
  }

  /** A verdict that asks for the status the review already has, or that does
      not act, can be inserted anywhere without any trace in the store: not in
      a row, not in the log, not on the clock. */
  lemma StutterLeavesNoTrace(db: Db, ours: string, a: seq<VerdictEvent>, e: VerdictEvent, b: seq<VerdictEvent>)
    requires forall id :: id in db.reviews && Moves(ours, e, id).Some? ==>
               Moves(ours, e, id).value == LastMove(ours, a, id, db.reviews[id].status)
    ensures Deliver(db, ours, a + [e] + b) == Deliver(db, ours, a + b)
  {
    DeliverSplits(db, ours, a + [e], b);
    DeliverSplits(db, ours, a, b);
    assert (a + [e])[..|a|] == a;
    var mid := Deliver(db, ours, a);
    if e.key.Names? && e.key.id in mid.reviews {
      DeliverKeepsRows(db, ours, a);
      StreamOutcome(db, ours, a, e.key.id);
      SameStatusIsNothing(mid, ours, e);
    }
  }

  lemma SameStatusIsNothing(db: Db, ours: string, e: VerdictEvent)
    requires e.key.Names? && e.key.id in db.reviews
    requires Moves(ours, e, e.key.id).Some? ==> Moves(ours, e, e.key.id).value == db.reviews[e.key.id].status
    ensures HandleModerationCompleted(db, ours, e) == db
  {
  }

  lemma {:induction false} DeliverKeepsRows(db: Db, ours: string, es: seq<VerdictEvent>)
    ensures Deliver(db, ours, es).reviews.Keys == db.reviews.Keys
  {
    if es != [] { DeliverKeepsRows(db, ours, es[..|es| - 1]); }
  }

  /** At any store, whatever led to it, a verdict leaves everything alone if and
      only if its review is gone, it does not act, or the review already has the
      status it asks for. */
  lemma VerdictIsNothingIff(db: Db, ours: string, e: VerdictEvent)
    ensures HandleModerationCompleted(db, ours, e) == db <==>
              forall id :: id in db.reviews && Moves(ours, e, id).Some? ==>
                Moves(ours, e, id).value == db.reviews[id].status
  {
    if e.key.Names? && e.key.id in db.reviews && Moves(ours, e, e.key.id).Some? {
      OneEvent(db, ours, e, e.key.id);
      if Moves(ours, e, e.key.id).value == db.reviews[e.key.id].status { SameStatusIsNothing(db, ours, e); }
    }
  }

  /** Redelivery after any other verdicts: a repeat is harmless if and only if no
      later verdict about the review asked for anything else last. A stale one
      takes effect again. */
  lemma RedeliveryIsNothingIff(db: Db, ours: string, a: seq<VerdictEvent>, e: VerdictEvent, b: seq<VerdictEvent>)
    ensures var later := Deliver(db, ours, a + [e] + b);
            HandleModerationCompleted(later, ours, e) == later <==>
              forall id :: id in db.reviews && Moves(ours, e, id).Some? ==>
                LastMove(ours, b, id, Moves(ours, e, id).value) == Moves(ours, e, id).value
  {
    var later := Deliver(db, ours, a + [e] + b);
    VerdictIsNothingIff(later, ours, e);
    DeliverKeepsRows(db, ours, a + [e] + b);
    forall id | id in db.reviews && Moves(ours, e, id).Some?
      ensures later.reviews[id].status == LastMove(ours, b, id, Moves(ours, e, id).value)
    {
      StreamOutcome(db, ours, a + [e] + b, id);
      LastMoveAfter(ours, a, e, b, id, db.reviews[id].status);
    }
  }

  lemma {:induction false} LastMoveAfter(ours: string, a: seq<VerdictEvent>, e: VerdictEvent, b: seq<VerdictEvent>,
                                         id: nat, initial: Status)
    requires Moves(ours, e, id).Some?
    ensures LastMove(ours, a + [e] + b, id, initial) == LastMove(ours, b, id, Moves(ours, e, id).value)
  {
    if b == [] {
      assert a + [e] + b == a + [e];
    } else {
      var k := |b| - 1;
      LastMoveAfter(ours, a, e, b[..k], id, initial);
      assert (a + [e] + b)[..|a + [e] + b| - 1] == a + [e] + b[..k];
    }
  }

  /** The adjacent case: the same verdict twice in a row is the verdict once. */
  lemma RedeliveredVerdict(db: Db, ours: string, a: seq<VerdictEvent>, e: VerdictEvent, b: seq<VerdictEvent>)
    ensures Deliver(db, ours, a + [e, e] + b) == Deliver(db, ours, a + [e] + b)
  {
    forall id | id in db.reviews && Moves(ours, e, id).Some?
      ensures Moves(ours, e, id).value == LastMove(ours, a + [e], id, db.reviews[id].status)
    {
      assert (a + [e])[|a|] == e;
    }
    StutterLeavesNoTrace(db, ours, a + [e], e, b);
    assert a + [e] + [e] + b == a + [e, e] + b;
  }
}
