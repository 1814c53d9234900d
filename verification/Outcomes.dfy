/** What a caller of the single writes may rely on, whatever order the checks
    are made in. */
module Outcomes {
  import opened Model
  import opened Registry
  import opened Aggregates
  import opened Engine
  import opened Invariants
  import opened Merging
  import opened Runs

  // ----- create -----

  /** Everything that has to be true of a review for it to be accepted. */
  ghost predicate Acceptable(db: Db, env: Env, req: Request) {
    && req.target.ttype in env.types
    && env.ratingMin <= req.rating <= env.ratingMax
    && var p := env.types[req.target.ttype];
    && (p.onePerAuthor ==>
          forall id :: id in db.reviews && db.reviews[id].target == req.target ==> db.reviews[id].author != req.author)
    && (p.canReview.Some? ==> Admits(p.canReview.value(req.author, req.target)))
    && exists owner ::
         NamesOwner(p.ownerKeyFor, req.target, owner) && (p.allowSelfReview || owner == "" || owner != req.author)
  }

  /** The new row: pending under pre-moderation and published otherwise, flagged
      under the one-per-author policy, stamped with the resolver's answer. */
  ghost predicate IsNewRow(r: Review, p: Policy, req: Request, now: nat) {
    && r.target == req.target && r.author == req.author && r.rating == req.rating && r.body == req.body
    && (r.status == Pending <==> p.moderation == "pre") && r.status != Hidden
    && r.uniquePerAuthor == p.onePerAuthor && NamesOwner(p.ownerKeyFor, req.target, r.ownerKey)
    && r.updatedAt == now
  }

  /** The one fact a write added, about the row as it now is and carrying the
      aggregate as it now is. */
  ghost predicate OneFactAbout(db: Db, db': Db, kind: FactKind, id: nat, reason: string) {
    && |db'.log| == |db.log| + 1 && db.log <= db'.log && id in db'.reviews
    && var f, r := db'.log[|db.log|], db'.reviews[id];
    && f.kind == kind && f.reviewId == id && f.reason == reason && f.time == db.clock + db.lag
    && f.target == r.target && f.author == r.author && f.rating == r.rating && f.status == r.status
    && f.aggregate == Live(db'.reviews, db'.nextId, r.target)
  }

  /** A create succeeds exactly when the review is acceptable, and then adds that
      one row, touches no other, and emits one fact if the row is visible; when
      it fails nothing changes. */
  lemma CreateOutcome(db: Db, env: Env, req: Request)
    requires Keyed(db)
    ensures var (db', res) := Create(db, env, req);
            && (res.Ok? <==> Acceptable(db, env, req))
            && (res.Err? ==> db' == db)
            && (res.Ok? ==>
                  && res.value !in db.reviews && res.value in db'.reviews
                  && db'.reviews - {res.value} == db.reviews && db'.responses == db.responses
                  && IsNewRow(db'.reviews[res.value], env.types[req.target.ttype], req, db.clock)
                  && (if Visible(db'.reviews[res.value].status)
                      then OneFactAbout(db, db', PublishedFact, res.value, "") else db'.log == db.log))
  {
    if req.target.ttype in env.types { ResolvedIsNamed(env.types[req.target.ttype], req.target); }
    if Acceptable(db, env, req) {
      assert Admit(db, env, req).Ok?;
      assert db.reviews[db.nextId := NewRow(Admit(db, env, req).value, db.clock)] - {db.nextId} == db.reviews;
    }
  }

  // ----- what the settings can change -----

  lemma SettingsReachStatusOnly(db: Db, s: Settings, s': Settings, types: map<string, RawPolicy>, req: Request)
    requires s.ratingMin == s'.ratingMin && s.ratingMax == s'.ratingMax
    ensures var a, a' := Admit(db, EnvOf(s, types), req), Admit(db, EnvOf(s', types), req);
            && (a.Err? || a'.Err? ==> a == a')
            && (a.Ok? ==> a'.Ok? && req.target.ttype in types && a'.value == a.value.(status := a'.value.status)
                          && (a.value.status == a'.value.status <==>
                                types[req.target.ttype].moderation.Some?
                                || (s.moderationDefault == "pre" <==> s'.moderationDefault == "pre")))
  {
  }

  lemma InsertsDiffer(db: Db, d: Draft, d': Draft)
    ensures Insert(db, d) == Insert(db, d') ==> NewRow(d, db.clock) == NewRow(d', db.clock)
  {
    assert Insert(db, d).reviews[db.nextId] == NewRow(d, db.clock);
    assert Insert(db, d').reviews[db.nextId] == NewRow(d', db.clock);
  }

  /** What a policy says is not up to the settings. Two hosts that differ only in
      their settings answer a create alike if and only if it is refused anyway,
      the policy says how it moderates, or both defaults come to the same. */
  lemma CreateFollowsPolicyFirst(db: Db, s: Settings, s': Settings, types: map<string, RawPolicy>, req: Request)
    requires s.ratingMin == s'.ratingMin && s.ratingMax == s'.ratingMax
    ensures Create(db, EnvOf(s, types), req) == Create(db, EnvOf(s', types), req) <==>
              || Create(db, EnvOf(s, types), req).1.Err?
              || types[req.target.ttype].moderation.Some?
              || (s.moderationDefault == "pre" <==> s'.moderationDefault == "pre")
  {
    SettingsReachStatusOnly(db, s, s', types, req);
    var a, a' := Admit(db, EnvOf(s, types), req), Admit(db, EnvOf(s', types), req);
    if a.Ok? { InsertsDiffer(db, a.value, a'.value); }
  }

  /** Likewise replies: only a type that does not say whether it takes them is
      open or shut by the settings. */
  lemma RespondFollowsPolicyFirst(db: Db, s: Settings, s': Settings, types: map<string, RawPolicy>,
                                  actor: Actor, id: nat, body: string)
    requires id in db.reviews
    ensures Respond(db, EnvOf(s, types), actor, id, body) == Respond(db, EnvOf(s', types), actor, id, body) <==>
              || actor.System? || db.reviews[id].target.ttype !in types
              || types[db.reviews[id].target.ttype].allowResponse.Some?
              || s.responses == s'.responses
  {
  }

  // ----- moderation -----

  /** Who may move a review: the platform, or someone the type's own callback
      lets in. */
  ghost predicate MayModerate(env: Env, actor: Actor, t: Target) {
    || actor.System?
    || (t.ttype in env.types && env.types[t.ttype].canModerate.Some?
        && Admits(env.types[t.ttype].canModerate.value(actor.id, t)))
  }

  /** Fail-closed: without a callback no human moves anything; the system actor
      is not asked even when the type is no longer registered. A move changes
      one row, and a row already there is left alone, log and all. */
  lemma ModerateOutcome(db: Db, env: Env, actor: Actor, id: nat, action: string, reason: string)
    requires id in db.reviews
    ensures var (db', res) := Moderate(db, env, actor, id, action, reason);
            var wanted := if action == "hide" then Hidden else Published;
            && (res.Ok? <==> action in {"hide", "publish"} && MayModerate(env, actor, db.reviews[id].target))
            && (res.Err? || db.reviews[id].status == wanted ==> db' == db)
            && (res.Ok? && db.reviews[id].status != wanted ==>
                  db'.reviews == db.reviews[id := db.reviews[id].(status := wanted, updatedAt := db.clock)]
                  && db'.responses == db.responses
                  && OneFactAbout(db, db', if wanted == Hidden then HiddenFact else PublishedFact, id, reason))
  {
  }

  // ----- replies -----

  /** The type takes replies, and this human is let in by its callback, or, where
      there is none, is the owner stamped on the review. */
  ghost predicate MayReply(env: Env, actor: Actor, r: Review) {
    && actor.Human? && r.target.ttype in env.types
    && var p := env.types[r.target.ttype];
    && p.allowResponse
    && (p.canRespond.Some? ==> Admits(p.canRespond.value(actor.id, r.target, r.ownerKey)))
    && (p.canRespond.None? ==> r.ownerKey != "" && r.ownerKey == actor.id)
  }

  /** The callback was asked and broke. */
  ghost predicate ReplyGateRaises(env: Env, actor: Actor, r: Review) {
    && actor.Human? && r.target.ttype in env.types
    && var p := env.types[r.target.ttype];
    && p.allowResponse && p.canRespond.Some? && p.canRespond.value(actor.id, r.target, r.ownerKey) == GateRaises
  }

  /** A reply is accepted exactly from someone entitled to it, once per review; a
      broken callback is the host's failure and leaves the store. */
  lemma RespondOutcome(db: Db, env: Env, actor: Actor, id: nat, body: string)
    requires id in db.reviews
    ensures var (db', res) := Respond(db, env, actor, id, body);
            var r := db.reviews[id];
            && (res.Ok? <==> MayReply(env, actor, r) && id !in db.responses)
            && (res == Err(HostFailure) <==> ReplyGateRaises(env, actor, r))
            && (res.Ok? ==> db' == db.(responses := db.responses[id := Response(actor.id, body)]))
            && (res.Err? ==> db' == db)
  {
  }

  lemma MergedReply(db: Db, env: Env, from: UserId, into: UserId, survivorExists: bool, id: nat)
    requires Keyed(db) && id in db.responses && id in Merge(db, env, from, into, survivorExists).0.responses
    ensures var was, now := db.responses[id], Merge(db, env, from, into, survivorExists).0.responses[id];
            now.body == was.body && (now.author == was.author || (was.author == from && now.author == into))
  {
    MergeIsCarryOver(db, env, from, into, survivorExists);
    if from != into { MergePostState(db, env, from, into); }
  }

  lemma RepliedOnce(db: Db, env: Env, actor: Actor, on: nat, body: string, id: nat)
    requires on in db.reviews && id in db.responses
    ensures var db' := Respond(db, env, actor, on, body).0;
            id in db'.responses && db'.responses[id] == db.responses[id]
  {
  }

  /** A reply, once written, keeps its words for as long as its review lives; only
      a merge of its author changes whose name it carries. */
  lemma RepliesAreFinal(db: Db, op: Op, id: nat)
    requires Keyed(db) && id in db.responses && id in Apply(db, op).responses
    ensures var was, now := db.responses[id], Apply(db, op).responses[id];
            && now.body == was.body
            && (now.author == was.author || (op.MergeOp? && was.author == op.from && now.author == op.into))
  {
    match op
    case CreateOp(env, req) => CreateRows(db, env, req);
    case RespondOp(env, actor, on, body) => if on in db.reviews { RepliedOnce(db, env, actor, on, body, id); }
    case DeletedOp(u) => DeletedRows(db, u);
    case MergeOp(env, from, into, survivorExists) => MergedReply(db, env, from, into, survivorExists, id);
    case BackfillOp(_, _) =>
    case _ => NoRowMoves(db, op);
  }
}
