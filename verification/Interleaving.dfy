/** Concurrent creates. The existence check, the insert and the look after a
    refusal are separate steps; anything else may happen in between. */
module Interleaving {
  import opened Model
  import opened Registry
  import opened Engine
  import opened Invariants
  import opened Merging
  import opened Runs

  /** One create_review call in flight. */
  datatype Proc =
    | Ready(env: Env, req: Request)
    | Checked(draft: Draft)
    | Refused(draft: Draft)
    | Answered(res: Result<nat>)

  datatype World = World(db: Db, procs: map<nat, Proc>)

  datatype Step =
    | Start(pid: nat, env: Env, req: Request)
    | Check(pid: nat)
    | Put(pid: nat)
    | LookAgain(pid: nat)
    | Other(op: Op)

  /** A step whose process is not at that point does nothing. */
  function Do(w: World, s: Step): World {
    match s
    case Start(pid, env, req) =>
      if pid in w.procs then w else w.(procs := w.procs[pid := Ready(env, req)])
    case Check(pid) =>
      if pid !in w.procs || !w.procs[pid].Ready? then w
      else w.(procs := w.procs[pid :=
        match Admit(w.db, w.procs[pid].env, w.procs[pid].req)
        case Ok(d) => Checked(d)
        case Err(e) => Answered(Err(e))])
    case Put(pid) =>
      if pid !in w.procs || !w.procs[pid].Checked? then w
      else
        var d := w.procs[pid].draft;
        if Collides(w.db.reviews, d) then w.(procs := w.procs[pid := Refused(d)])
        else World(Insert(w.db, d), w.procs[pid := Answered(Ok(w.db.nextId))])
    case LookAgain(pid) =>
      if pid !in w.procs || !w.procs[pid].Refused? then w
      else w.(procs := w.procs[pid := Answered(Err(AfterRefusal(w.db.reviews, w.procs[pid].draft)))])
    case Other(op) => w.(db := Apply(w.db, op))
  }

  function DoAll(w: World, steps: seq<Step>): World {
    if steps == [] then w else Do(DoAll(w, steps[..|steps| - 1]), steps[|steps| - 1])
  }

  // ----- facts and rows stay in step under interleaving too -----

  ghost predicate DraftsAreNew(procs: map<nat, Proc>) {
    forall pid :: pid in procs && (procs[pid].Checked? || procs[pid].Refused?) ==> procs[pid].draft.status != Hidden
  }

  lemma DoKeepsInv(w: World, s: Step)
    requires Inv(w.db) && DraftsAreNew(w.procs)
    ensures Inv(Do(w, s).db) && DraftsAreNew(Do(w, s).procs)
  {
    match s
    case Check(pid) =>
      if pid in w.procs && w.procs[pid].Ready? { AdmittedIsNotHidden(w.db, w.procs[pid].env, w.procs[pid].req); }
    case Put(pid) =>
      if pid in w.procs && w.procs[pid].Checked? && !Collides(w.db.reviews, w.procs[pid].draft) {
        InsertKeeps(w.db, w.procs[pid].draft);
      }
    case Other(op) => ApplyKeeps(w.db, op);
    case _ =>
  }

  lemma {:induction false} DoAllKeepsInv(w: World, steps: seq<Step>)
    requires Inv(w.db) && DraftsAreNew(w.procs)
    ensures Inv(DoAll(w, steps).db) && DraftsAreNew(DoAll(w, steps).procs)
  {
    if steps != [] {
      var k := |steps| - 1;
      DoAllKeepsInv(w, steps[..k]);
      DoKeepsInv(DoAll(w, steps[..k]), steps[k]);
    }
  }

  // ----- one review per author -----

  /** The policy of type `ttype` is on as far as this step can see. */
  predicate PolicyOn(s: Step, ttype: string) {
    match s
    case Start(_, env, _) => OnePer(env, ttype)
    case Other(CreateOp(env, _)) => OnePer(env, ttype)
    case Other(MergeOp(env, _, _, _)) => OnePer(env, ttype)
    case _ => true
  }

  ghost predicate AllFlagged(m: Table, ttype: string) {
    forall id :: id in m && m[id].target.ttype == ttype ==> m[id].uniquePerAuthor
  }

  ghost predicate ProcFlags(p: Proc, ttype: string) {
    match p
    case Ready(env, _) => OnePer(env, ttype)
    case Checked(d) => d.target.ttype == ttype ==> d.uniquePerAuthor
    case Refused(d) => d.target.ttype == ttype ==> d.uniquePerAuthor
    case Answered(_) => true
  }

  ghost predicate Guarded(w: World, ttype: string) {
    && Inv(w.db) && DraftsAreNew(w.procs)
    && AllFlagged(w.db.reviews, ttype)
    && forall pid :: pid in w.procs ==> ProcFlags(w.procs[pid], ttype)
  }

  lemma AdmittedIsFlagged(db: Db, env: Env, req: Request, ttype: string)
    requires OnePer(env, ttype) && Admit(db, env, req).Ok?
    ensures var d := Admit(db, env, req).value; d.target.ttype == ttype ==> d.uniquePerAuthor
  {
  }

  lemma MergeKeepsFlags(db: Db, env: Env, from: UserId, into: UserId, survivorExists: bool, ttype: string)
    requires Keyed(db) && OnePer(env, ttype) && AllFlagged(db.reviews, ttype)
    ensures AllFlagged(Merge(db, env, from, into, survivorExists).0.reviews, ttype)
  {
    MergeIsCarryOver(db, env, from, into, survivorExists);
    if from != into { MergedRows(db, env, from, into); }
  }

  lemma CreateKeepsFlags(db: Db, env: Env, req: Request, ttype: string)
    requires OnePer(env, ttype) && AllFlagged(db.reviews, ttype)
    ensures AllFlagged(Create(db, env, req).0.reviews, ttype)
  {
    CreateRows(db, env, req);
    if Admit(db, env, req).Ok? { AdmittedIsFlagged(db, env, req, ttype); }
  }

  lemma ApplyKeepsFlags(db: Db, op: Op, ttype: string)
    requires Keyed(db) && AllFlagged(db.reviews, ttype) && PolicyOn(Other(op), ttype)
    ensures AllFlagged(Apply(db, op).reviews, ttype)
  {
    match op
    case CreateOp(env, req) => CreateKeepsFlags(db, env, req, ttype);
    case DeletedOp(u) => DeletedRows(db, u);
    case MergeOp(env, from, into, survivorExists) => MergeKeepsFlags(db, env, from, into, survivorExists, ttype);
    case BackfillOp(_, _) =>
    case _ => NoRowMoves(db, op);
  }

  lemma DoKeepsProcFlags(w: World, s: Step, ttype: string, pid: nat)
    requires Guarded(w, ttype) && PolicyOn(s, ttype) && pid in Do(w, s).procs
    ensures ProcFlags(Do(w, s).procs[pid], ttype)
  {
    if s == Check(pid) && w.procs[pid].Ready? && Admit(w.db, w.procs[pid].env, w.procs[pid].req).Ok? {
      AdmittedIsFlagged(w.db, w.procs[pid].env, w.procs[pid].req, ttype);
    }
  }

  lemma DoKeepsFlags(w: World, s: Step, ttype: string)
    requires Guarded(w, ttype) && PolicyOn(s, ttype)
    ensures AllFlagged(Do(w, s).db.reviews, ttype)
  {
    match s
    case Put(pid) =>
      if pid in w.procs { assert ProcFlags(w.procs[pid], ttype); }
    case Other(op) => ApplyKeepsFlags(w.db, op, ttype);
    case _ =>
  }

  lemma DoKeepsGuard(w: World, s: Step, ttype: string)
    requires Guarded(w, ttype) && PolicyOn(s, ttype)
    ensures Guarded(Do(w, s), ttype)
  {
    DoKeepsInv(w, s);
    DoKeepsFlags(w, s, ttype);
    forall pid | pid in Do(w, s).procs
      ensures ProcFlags(Do(w, s).procs[pid], ttype)
    {
      DoKeepsProcFlags(w, s, ttype, pid);
    }
  }

  lemma {:induction false} DoAllKeepsGuard(w: World, steps: seq<Step>, ttype: string)
    requires Guarded(w, ttype)
    requires forall k :: 0 <= k < |steps| ==> PolicyOn(steps[k], ttype)
    ensures Guarded(DoAll(w, steps), ttype)
  {
    if steps != [] {
      var k := |steps| - 1;
      DoAllKeepsGuard(w, steps[..k], ttype);
      DoKeepsGuard(DoAll(w, steps[..k]), steps[k], ttype);
    }
  }

  ghost predicate SameAuthorAndTarget(r: Review, r': Review) {
    r.target == r'.target && r.author == r'.author
  }

  ghost predicate OneEach(m: Table, ttype: string) {
    forall i, j :: i in m && j in m && i != j && m[i].target.ttype == ttype ==> !SameAuthorAndTarget(m[i], m[j])
  }

  /** A type that starts with no reviews and keeps its policy on: however any
      number of creates interleave with each other and with merges, erasures,
      moderation and backfills, no author ever has two reviews of a target, and
      the facts still agree with the rows. */
  lemma OneReviewPerAuthor(db: Db, steps: seq<Step>, ttype: string)
    requires Inv(db) && forall id :: id in db.reviews ==> db.reviews[id].target.ttype != ttype
    requires forall k :: 0 <= k < |steps| ==> PolicyOn(steps[k], ttype)
    ensures OneEach(DoAll(World(db, map[]), steps).db.reviews, ttype)
    ensures Inv(DoAll(World(db, map[]), steps).db)
  {
    DoAllKeepsGuard(World(db, map[]), steps, ttype);
  }

  // ----- what a refused create answers -----

  /** Looking again at the store that refused the row always finds the other
      review. */
  lemma RefusalIsDuplicate(w: World, pid: nat)
    requires pid in w.procs && w.procs[pid].Checked? && Collides(w.db.reviews, w.procs[pid].draft)
    ensures var w' := Do(Do(w, Put(pid)), LookAgain(pid));
            w'.db == w.db && w'.procs[pid] == Answered(Err(DuplicateReview))
  {
    var d := w.procs[pid].draft;
    var id :| id in w.db.reviews && w.db.reviews[id].uniquePerAuthor
              && w.db.reviews[id].target == d.target && w.db.reviews[id].author == d.author;
    assert HasReview(w.db.reviews, d.target, d.author);
  }

  /** The step takes every review of `u` away: an erasure, or a merge into an
      account that exists. */
  predicate Departs(s: Step, u: UserId) {
    match s
    case Other(DeletedOp(v)) => v == u && u != ""
    case Other(MergeOp(_, from, into, survivorExists)) =>
      from == u && u != "" && into != "" && into != u && survivorExists
    case _ => false
  }

  /** The step brings `u` a review of `t`: an accepted row, or a guest's that is
      carried over. */
  predicate Arrives(w: World, s: Step, t: Target, u: UserId) {
    match s
    case Put(pid) =>
      pid in w.procs && w.procs[pid].Checked? && !Collides(w.db.reviews, w.procs[pid].draft)
      && w.procs[pid].draft.target == t && w.procs[pid].draft.author == u
    case Other(CreateOp(env, req)) => req.target == t && req.author == u && Admit(w.db, env, req).Ok?
    case Other(MergeOp(_, from, into, survivorExists)) =>
      into == u && u != "" && from != "" && from != u && survivorExists && HasReview(w.db.reviews, t, from)
    case _ => false
  }

  /** Whether a review that was there at the start is still there, or there
      again: nothing took it away after the last thing that brought one. */
  predicate Stands(w: World, steps: seq<Step>, t: Target, u: UserId) {
    if steps == [] then true
    else
      var k := |steps| - 1;
      !Departs(steps[k], u) && (Stands(w, steps[..k], t, u) || Arrives(DoAll(w, steps[..k]), steps[k], t, u))
  }

  lemma CreateHas(db: Db, env: Env, req: Request, t: Target, u: UserId)
    requires Keyed(db)
    ensures HasReview(Create(db, env, req).0.reviews, t, u) <==>
              HasReview(db.reviews, t, u) || (req.target == t && req.author == u && Admit(db, env, req).Ok?)
  {
    SerialCreateIsNeverRefused(db, env, req);
    if Admit(db, env, req).Ok? {
      var d := Admit(db, env, req).value;
      AdmittedIsNotHidden(db, env, req);
      InsertHas(db, d, t, u);
    }
  }

  lemma InsertHas(db: Db, d: Draft, t: Target, u: UserId)
    requires Keyed(db)
    ensures HasReview(Insert(db, d).reviews, t, u) <==> HasReview(db.reviews, t, u) || (d.target == t && d.author == u)
  {
    var m, m' := db.reviews, Insert(db, d).reviews;
    assert m' == m[db.nextId := NewRow(d, db.clock)];
    if HasReview(m, t, u) {
      var id :| id in m && m[id].target == t && m[id].author == u;
      assert m'[id] == m[id];
    }
    if d.target == t && d.author == u { assert m'[db.nextId].target == t && m'[db.nextId].author == u; }
  }

  lemma DeletedHas(db: Db, v: UserId, t: Target, u: UserId)
    ensures HasReview(HandleUserDeleted(db, v).reviews, t, u) <==> HasReview(db.reviews, t, u) && !(v == u && u != "")
  {
    DeletedRows(db, v);
    var m, m' := db.reviews, HandleUserDeleted(db, v).reviews;
    if HasReview(m, t, u) && !(v == u && u != "") {
      var id :| id in m && m[id].target == t && m[id].author == u;
      assert id in m';
    }
  }

  lemma TransferHas(env: Env, m: Table, from: UserId, into: UserId, t: Target, u: UserId)
    requires from != into
    ensures HasReview(TransferredTable(env, m, from, into), t, u) <==>
              u != from && (HasReview(m, t, u) || (u == into && HasReview(m, t, from)))
  {
    var m' := TransferredTable(env, m, from, into);
    if u != from && HasReview(m, t, u) {
      var id :| id in m && m[id].target == t && m[id].author == u;
      assert id in m' && m'[id] == m[id];
    } else if u == into && HasReview(m, t, from) {
      var id :| id in m && m[id].target == t && m[id].author == from;
      TakenMeansAuthored(m, into, t);
      assert id in m' && m'[id].target == t && m'[id].author == into;
    }
  }

  lemma MergeHas(db: Db, env: Env, from: UserId, into: UserId, survivorExists: bool, t: Target, u: UserId)
    requires Keyed(db)
    ensures var acts := from != "" && into != "" && from != into && survivorExists;
            HasReview(Merge(db, env, from, into, survivorExists).0.reviews, t, u) <==>
              !(acts && u == from) && (HasReview(db.reviews, t, u) || (acts && u == into && HasReview(db.reviews, t, from)))
  {
    if from != "" && into != "" && from != into && survivorExists {
      MergedRows(db, env, from, into);
      TransferHas(env, db.reviews, from, into, t, u);
    }
  }

  lemma SameAuthorsHas(m: Table, m': Table, t: Target, u: UserId)
    requires m'.Keys == m.Keys && forall id :: id in m ==> SameAuthorAndTarget(m[id], m'[id])
    ensures HasReview(m', t, u) <==> HasReview(m, t, u)
  {
    if HasReview(m, t, u) {
      var id :| id in m && m[id].target == t && m[id].author == u;
      assert id in m';
    }
    if HasReview(m', t, u) {
      var id :| id in m' && m'[id].target == t && m'[id].author == u;
      assert id in m;
    }
  }

  lemma OtherHas(w: World, op: Op, t: Target, u: UserId)
    requires Keyed(w.db)
    ensures HasReview(Apply(w.db, op).reviews, t, u) <==>
              !Departs(Other(op), u) && (HasReview(w.db.reviews, t, u) || Arrives(w, Other(op), t, u))
  {
    match op
    case CreateOp(env, req) => CreateHas(w.db, env, req, t, u);
    case DeletedOp(v) => DeletedHas(w.db, v, t, u);
    case MergeOp(env, from, into, survivorExists) => MergeHas(w.db, env, from, into, survivorExists, t, u);
    case BackfillOp(env, done) => SameAuthorsHas(w.db.reviews, Stamp(env, done, w.db.reviews), t, u);
    case _ =>
      NoRowMoves(w.db, op);
      SameAuthorsHas(w.db.reviews, Apply(w.db, op).reviews, t, u);
  }

  /** One step: a review of `t` by `u` is there afterwards if and only if the
      step did not take it away and it was there or the step brought it. */
  lemma StepHas(w: World, s: Step, t: Target, u: UserId)
    requires Keyed(w.db)
    ensures HasReview(Do(w, s).db.reviews, t, u) <==>
              !Departs(s, u) && (HasReview(w.db.reviews, t, u) || Arrives(w, s, t, u))
  {
    match s
    case Put(pid) =>
      if pid in w.procs && w.procs[pid].Checked? { InsertHas(w.db, w.procs[pid].draft, t, u); }
    case Other(op) => OtherHas(w, op, t, u);
    case _ =>
  }

  lemma {:induction false} StepsHave(w: World, steps: seq<Step>, t: Target, u: UserId)
    requires Inv(w.db) && DraftsAreNew(w.procs) && HasReview(w.db.reviews, t, u)
    ensures HasReview(DoAll(w, steps).db.reviews, t, u) <==> Stands(w, steps, t, u)
  {
    if steps != [] {
      var k := |steps| - 1;
      StepsHave(w, steps[..k], t, u);
      DoAllKeepsInv(w, steps[..k]);
      StepHas(DoAll(w, steps[..k]), steps[k], t, u);
    }
  }

  /** A refused create waits at its second look, whatever else happens. */
  lemma {:induction false} RefusedWaits(w: World, steps: seq<Step>, pid: nat)
    requires pid in w.procs && w.procs[pid].Refused? && LookAgain(pid) !in steps
    ensures pid in DoAll(w, steps).procs && DoAll(w, steps).procs[pid] == w.procs[pid]
  {
    if steps != [] { RefusedWaits(w, steps[..|steps| - 1], pid); }
  }

  /** The answer of a refused create whose second look comes after any steps at
      all: DuplicateReview if and only if, counting from the refusal, nothing
      took the author's reviews away since the last step that brought one;
      otherwise the database's own error. */
  lemma LateLookAnswers(w: World, pid: nat, steps: seq<Step>)
    requires Inv(w.db) && DraftsAreNew(w.procs)
    requires pid in w.procs && w.procs[pid].Checked? && Collides(w.db.reviews, w.procs[pid].draft)
    requires LookAgain(pid) !in steps
    ensures var d, refused := w.procs[pid].draft, Do(w, Put(pid));
            var end := Do(DoAll(refused, steps), LookAgain(pid));
            pid in end.procs && end.procs[pid] ==
              Answered(Err(if Stands(refused, steps, d.target, d.author) then DuplicateReview else IntegrityError))
  {
    var d := w.procs[pid].draft;
    var refused := RefusedWorld(w, pid);
    StepsHave(refused, steps, d.target, d.author);
    RefusedWaits(refused, steps, pid);
    LookAnswers(DoAll(refused, steps), pid);
  }

  /** The world right after the refusal. */
  lemma RefusedWorld(w: World, pid: nat) returns (refused: World)
    requires Inv(w.db) && DraftsAreNew(w.procs)
    requires pid in w.procs && w.procs[pid].Checked? && Collides(w.db.reviews, w.procs[pid].draft)
    ensures refused == Do(w, Put(pid)) && Inv(refused.db) && DraftsAreNew(refused.procs)
    ensures pid in refused.procs && refused.procs[pid] == Refused(w.procs[pid].draft)
    ensures w.procs[pid].draft.uniquePerAuthor
    ensures HasReview(refused.db.reviews, w.procs[pid].draft.target, w.procs[pid].draft.author)
  {
    CollisionHas(w.db.reviews, w.procs[pid].draft);
    DoKeepsInv(w, Put(pid));
    refused := Do(w, Put(pid));
  }

  lemma LookAnswers(w: World, pid: nat)
    requires pid in w.procs && w.procs[pid].Refused? && w.procs[pid].draft.uniquePerAuthor
    ensures var d, end := w.procs[pid].draft, Do(w, LookAgain(pid));
            pid in end.procs && end.procs[pid] ==
              Answered(Err(if HasReview(w.db.reviews, d.target, d.author) then DuplicateReview else IntegrityError))
  {
  }

  lemma CollisionHas(m: Table, d: Draft)
    requires Collides(m, d)
    ensures d.uniquePerAuthor && HasReview(m, d.target, d.author)
  {
    var id :| id in m && m[id].uniquePerAuthor && m[id].target == d.target && m[id].author == d.author;
    assert m[id].target == d.target && m[id].author == d.author;
  }

  /** In particular, while nobody erases the author or merges the account away,
      the late answer is the one the check gives. */
  lemma NobodyLeavesMeansDuplicate(w: World, pid: nat, steps: seq<Step>)
    requires Inv(w.db) && DraftsAreNew(w.procs)
    requires pid in w.procs && w.procs[pid].Checked? && Collides(w.db.reviews, w.procs[pid].draft)
    requires forall k :: 0 <= k < |steps| ==> steps[k] != LookAgain(pid) && !Departs(steps[k], w.procs[pid].draft.author)
    ensures var end := Do(DoAll(Do(w, Put(pid)), steps), LookAgain(pid));
            pid in end.procs && end.procs[pid] == Answered(Err(DuplicateReview))
  {
    LateLookAnswers(w, pid, steps);
    NobodyLeavesMeansStands(Do(w, Put(pid)), steps, w.procs[pid].draft.target, w.procs[pid].draft.author);
  }

  lemma {:induction false} NobodyLeavesMeansStands(w: World, steps: seq<Step>, t: Target, u: UserId)
    requires forall k :: 0 <= k < |steps| ==> !Departs(steps[k], u)
    ensures Stands(w, steps, t, u)
  {
    if steps != [] { NobodyLeavesMeansStands(w, steps[..|steps| - 1], t, u); }
  }

  /** And an erasure, or a merge away, just before the look brings out the
      database's own error. */
  lemma ErasureInBetweenSurfacesRefusal(w: World, pid: nat)
    requires pid in w.procs && w.procs[pid].Refused? && w.procs[pid].draft.author != ""
    ensures Do(Do(w, Other(DeletedOp(w.procs[pid].draft.author))), LookAgain(pid)).procs[pid]
         == Answered(Err(IntegrityError))
  {
    DeletedHas(w.db, w.procs[pid].draft.author, w.procs[pid].draft.target, w.procs[pid].draft.author);
  }

  lemma MergeInBetweenSurfacesRefusal(w: World, pid: nat, env: Env, into: UserId)
    requires Keyed(w.db) && pid in w.procs && w.procs[pid].Refused?
    requires w.procs[pid].draft.author != "" && into != "" && into != w.procs[pid].draft.author
    ensures Do(Do(w, Other(MergeOp(env, w.procs[pid].draft.author, into, true))), LookAgain(pid)).procs[pid]
         == Answered(Err(IntegrityError))
  {
    MergeHas(w.db, env, w.procs[pid].draft.author, into, true, w.procs[pid].draft.target, w.procs[pid].draft.author);
  }

  /** The steps of one call, nothing in between: they change the store as the
      serial create does and give its answer. */
  lemma StepsOfOneCall(w: World, pid: nat, env: Env, req: Request)
    requires pid !in w.procs
    ensures var end := Do(Do(Do(Do(w, Start(pid, env, req)), Check(pid)), Put(pid)), LookAgain(pid));
            && end.db == Create(w.db, env, req).0
            && end.procs == w.procs[pid := Answered(Create(w.db, env, req).1)]
  {
    SerialCreateIsNeverRefused(w.db, env, req);
    CheckedAnswers(w, pid, env, req);
  }

  lemma CheckedAnswers(w: World, pid: nat, env: Env, req: Request)
    requires pid !in w.procs
    ensures var w2 := Do(Do(w, Start(pid, env, req)), Check(pid));
            && w2.db == w.db
            && w2.procs == w.procs[pid := match Admit(w.db, env, req)
                                          case Ok(d) => Checked(d)
                                          case Err(e) => Answered(Err(e))]
  {
  }

  /** Without interleaving the check is enough: an admitted draft never meets the
      constraint, so a serial create never gets as far as a refusal. */
  lemma SerialCreateIsNeverRefused(db: Db, env: Env, req: Request)
    ensures Admit(db, env, req).Ok? ==> !Collides(db.reviews, Admit(db, env, req).value)
    ensures Create(db, env, req).1 != Err(IntegrityError)
  {
  }
}
