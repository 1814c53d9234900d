/** Where "nobody reviews what they own" survives a write, and exactly where it
    does not. */
module SelfReviewRule {
  import opened Model
  import opened Registry
  import opened Engine
  import opened Invariants
  import opened Merging
  import opened Runs

  ghost predicate NoSelfReview(m: Table) {
    forall id :: id in m ==> !IsOwner(m[id].ownerKey, m[id].author)
  }

  /** What a caller can look up beforehand: a merge is safe when no guest row it
      keeps is about something the survivor owns, a backfill when no unstamped
      row it reaches was written by the owner the resolver names. */
  ghost predicate KeepsRule(db: Db, op: Op) {
    match op
    case MergeOp(env, from, into, survivorExists) =>
      from == "" || into == "" || from == into || !OwnsSomething(db, from) || !survivorExists ||
      forall id :: id in db.reviews && db.reviews[id].author == from && !Dropped(env, db.reviews, from, into, db.reviews[id])
                   ==> !IsOwner(db.reviews[id].ownerKey, into)
    case BackfillOp(env, done) =>
      forall id :: id in db.reviews && db.reviews[id].ownerKey == "" && db.reviews[id].target in done
                   ==> Resolve(env, db.reviews[id].target) != Owner(db.reviews[id].author)
    case _ => true
  }

  ghost predicate RefusesSelfReview(op: Op) {
    op.CreateOp? && Lookup(op.env, op.req.target.ttype).Some? ==>
      !Lookup(op.env, op.req.target.ttype).value.allowSelfReview
  }

  lemma CreateRefusesSelf(db: Db, env: Env, req: Request)
    requires NoSelfReview(db.reviews)
    requires RefusesSelfReview(CreateOp(env, req))
    ensures NoSelfReview(Create(db, env, req).0.reviews)
  {
    CreateRows(db, env, req);
    if Admit(db, env, req).Ok? { AdmittedHasOwner(db, env, req); }
  }

  lemma AdmittedHasOwner(db: Db, env: Env, req: Request)
    requires RefusesSelfReview(CreateOp(env, req)) && Admit(db, env, req).Ok?
    ensures !IsOwner(Admit(db, env, req).value.ownerKey, Admit(db, env, req).value.author)
  {
  }

  lemma MergeRule(db: Db, env: Env, from: UserId, into: UserId)
    requires Keyed(db) && from != into && NoSelfReview(db.reviews)
    ensures NoSelfReview(CarryOver(db, env, from, into).reviews) <==>
              forall id :: id in db.reviews && db.reviews[id].author == from
                           && !Dropped(env, db.reviews, from, into, db.reviews[id])
                           ==> !IsOwner(db.reviews[id].ownerKey, into)
  {
    MergedRows(db, env, from, into);
    var m, m' := db.reviews, TransferredTable(env, db.reviews, from, into);
    forall id | id in m'
      ensures m'[id].ownerKey == m[id].ownerKey
      ensures m'[id].author == if m[id].author == from then into else m[id].author
    {
    }
  }

  /** A merge the handler turns away moves nothing. */
  lemma MergeRuleScope(db: Db, env: Env, from: UserId, into: UserId, survivorExists: bool)
    requires Keyed(db) && NoSelfReview(db.reviews)
    ensures NoSelfReview(Merge(db, env, from, into, survivorExists).0.reviews)
            <==> KeepsRule(db, MergeOp(env, from, into, survivorExists))
  {
    if from != into { MergeRule(db, env, from, into); }
  }

  lemma StampRule(db: Db, env: Env, done: set<Target>)
    requires NoSelfReview(db.reviews)
    ensures NoSelfReview(Stamp(env, done, db.reviews)) <==> KeepsRule(db, BackfillOp(env, done))
  {
    var m' := Stamp(env, done, db.reviews);
    forall id | id in db.reviews
      ensures var r := db.reviews[id];
              IsOwner(m'[id].ownerKey, m'[id].author) <==>
                r.ownerKey == "" && r.target in done && Resolve(env, r.target) == Owner(r.author)
    {
      StampedSelf(env, done, db.reviews[id]);
    }
    assert m'.Keys == db.reviews.Keys;
  }

  lemma StampedSelf(env: Env, done: set<Target>, r: Review)
    requires !IsOwner(r.ownerKey, r.author)
    ensures IsOwner(StampRow(env, done, r).ownerKey, StampRow(env, done, r).author) <==>
              r.ownerKey == "" && r.target in done && Resolve(env, r.target) == Owner(r.author)
  {
    ResolvedIsNotEmpty(env, r.target);
  }

  lemma ResolvedIsNotEmpty(env: Env, t: Target)
    ensures Resolve(env, t).Owner? ==> Resolve(env, t).key != ""
  {
  }

  /** With allow_self_review off, a write keeps the rule if and only if it is not
      one of the two exceptions. */
  lemma RuleScope(db: Db, op: Op)
    requires Keyed(db) && NoSelfReview(db.reviews) && RefusesSelfReview(op)
    ensures NoSelfReview(Apply(db, op).reviews) <==> KeepsRule(db, op)
  {
    match op
    case CreateOp(env, req) => CreateRefusesSelf(db, env, req);
    case DeletedOp(u) => DeletedRows(db, u);
    case MergeOp(env, from, into, survivorExists) => MergeRuleScope(db, env, from, into, survivorExists);
    case BackfillOp(env, done) => StampRule(db, env, done);
    case _ => NoRowMoves(db, op);
  }
}
