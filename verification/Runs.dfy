/** Whole runs: any sequence of writes, each under whatever policies the host
    has at the time, transactions taken one after the other. */
module Runs {
  import opened Model
  import opened Registry
  import opened Aggregates
  import opened Engine
  import opened Invariants
  import opened Merging

  datatype Op =
    | CreateOp(env: Env, req: Request)
    | ModerateOp(env: Env, actor: Actor, id: nat, action: string, reason: string)
    | VerdictOp(ours: string, event: VerdictEvent)
    | RespondOp(env: Env, actor: Actor, id: nat, body: string)
    | DeletedOp(user: UserId)
    | MergeOp(env: Env, from: UserId, into: UserId, survivorExists: bool)
    | BackfillOp(env: Env, done: set<Target>)
    | WaitOp(ticks: nat, lag: nat)

  function Apply(db: Db, op: Op): Db {
    match op
    case CreateOp(env, req) => Create(db, env, req).0
    case ModerateOp(env, actor, id, action, reason) =>
      if id in db.reviews then Moderate(db, env, actor, id, action, reason).0 else db
    case VerdictOp(ours, event) => HandleModerationCompleted(db, ours, event)
    case RespondOp(env, actor, id, body) =>
      if id in db.reviews then Respond(db, env, actor, id, body).0 else db
    case DeletedOp(user) => HandleUserDeleted(db, user)
    case MergeOp(env, from, into, survivorExists) => Merge(db, env, from, into, survivorExists).0
    case BackfillOp(env, done) => db.(reviews := Stamp(env, done, db.reviews))
    case WaitOp(ticks, lag) => db.(clock := db.clock + ticks, lag := lag)
  }

  function Run(db: Db, ops: seq<Op>): Db {
    if ops == [] then db else Apply(Run(db, ops[..|ops| - 1]), ops[|ops| - 1])
  }

  // ----- every write keeps the invariant -----

  lemma AdmittedIsNotHidden(db: Db, env: Env, req: Request)
    ensures Admit(db, env, req).Ok? ==>
              var d := Admit(db, env, req).value;
              && d.status != Hidden
              && env.ratingMin <= d.rating <= env.ratingMax
              && d.author == req.author && d.target == req.target
  {
  }

  lemma CreateKeeps(db: Db, env: Env, req: Request)
    requires Inv(db)
    ensures Inv(Create(db, env, req).0)
  {
    AdmittedIsNotHidden(db, env, req);
    match Admit(db, env, req)
    case Err(_) =>
    case Ok(d) => if !Collides(db.reviews, d) { InsertKeeps(db, d); }
  }

  /** Refused, a moderation leaves the store; admitted, it saves the status. */
  lemma ModerateIsSetStatus(db: Db, env: Env, actor: Actor, id: nat, action: string, reason: string)
    requires id in db.reviews
    ensures var db' := Moderate(db, env, actor, id, action, reason).0;
            db' == db || db' == SetStatus(db, id, if action == "hide" then Hidden else Published, reason)
  {
  }

  lemma ModerateKeeps(db: Db, env: Env, actor: Actor, id: nat, action: string, reason: string)
    requires Inv(db) && id in db.reviews
    ensures Inv(Moderate(db, env, actor, id, action, reason).0)
  {
    ModerateIsSetStatus(db, env, actor, id, action, reason);
    SetStatusKeeps(db, id, if action == "hide" then Hidden else Published, reason);
  }

  lemma VerdictNeverPending(decision: string)
    ensures VerdictStatus(decision) != Ok(Some(Pending))
  {
  }

  ghost predicate SavesSomeStatus(db: Db, db': Db, id: nat, reason: string) {
    id in db.reviews && (db' == SetStatus(db, id, Published, reason) || db' == SetStatus(db, id, Hidden, reason))
  }

  /** Dropped or not acting, a verdict leaves the store; acting, it saves a
      status that is not pending. */
  lemma VerdictIsSetStatus(db: Db, ours: string, e: VerdictEvent)
    ensures var db' := HandleModerationCompleted(db, ours, e);
            db' == db || (e.key.Names? && SavesSomeStatus(db, db', e.key.id, if e.reasonCode != "" then e.reasonCode else e.note))
  {
    VerdictNeverPending(e.decision);
  }

  lemma VerdictKeeps(db: Db, ours: string, e: VerdictEvent)
    requires Inv(db)
    ensures Inv(HandleModerationCompleted(db, ours, e))
  {
    VerdictIsSetStatus(db, ours, e);
    if e.key.Names? && e.key.id in db.reviews {
      var reason := if e.reasonCode != "" then e.reasonCode else e.note;
      SetStatusKeeps(db, e.key.id, Published, reason);
      SetStatusKeeps(db, e.key.id, Hidden, reason);
    }
  }

  /** A reply touches no table but its own. */
  lemma RespondTouchesReplies(db: Db, env: Env, actor: Actor, id: nat, body: string)
    requires id in db.reviews
    ensures var db' := Respond(db, env, actor, id, body).0;
            db' == db.(responses := db'.responses) && db'.responses.Keys <= db.responses.Keys + {id}
  {
  }

  lemma RespondKeeps(db: Db, env: Env, actor: Actor, id: nat, body: string)
    requires Inv(db) && id in db.reviews
    ensures Inv(Respond(db, env, actor, id, body).0)
  {
    RespondTouchesReplies(db, env, actor, id, body);
    RelabelKeeps(db, db.reviews, Respond(db, env, actor, id, body).0.responses);
  }

  lemma DeletedKeeps(db: Db, user: UserId)
    requires Inv(db)
    ensures Inv(HandleUserDeleted(db, user))
  {
    EraseKeeps(db, user);
  }

  /** A merge either leaves the store or is the transfer. */
  lemma MergeIsCarryOver(db: Db, env: Env, from: UserId, into: UserId, survivorExists: bool)
    ensures var db' := Merge(db, env, from, into, survivorExists).0;
            db' == db || (from != into && db' == CarryOver(db, env, from, into))
  {
  }

  lemma MergeKeeps(db: Db, env: Env, from: UserId, into: UserId, survivorExists: bool)
    requires Inv(db)
    ensures Inv(Merge(db, env, from, into, survivorExists).0)
  {
    MergeIsCarryOver(db, env, from, into, survivorExists);
    if from != into { CarryOverKeeps(db, env, from, into); }
  }

  lemma StampKeeps(db: Db, env: Env, done: set<Target>)
    requires Inv(db)
    ensures Inv(db.(reviews := Stamp(env, done, db.reviews)))
  {
    RelabelKeeps(db, Stamp(env, done, db.reviews), db.responses);
  }

  lemma WaitKeeps(db: Db, ticks: nat, lag: nat)
    requires Inv(db)
    ensures Inv(db.(clock := db.clock + ticks, lag := lag))
  {
  }

  lemma ApplyKeeps(db: Db, op: Op)
    requires Inv(db)
    ensures Inv(Apply(db, op))
  {
    if op.CreateOp? || op.ModerateOp? || op.VerdictOp? || op.RespondOp? {
      ServiceCallKeeps(db, op);
    } else {
      BulkWriteKeeps(db, op);
    }
  }

  lemma ServiceCallKeeps(db: Db, op: Op)
    requires Inv(db) && (op.CreateOp? || op.ModerateOp? || op.VerdictOp? || op.RespondOp?)
    ensures Inv(Apply(db, op))
  {
    match op
    case CreateOp(env, req) => CreateKeeps(db, env, req);
    case ModerateOp(env, actor, id, action, reason) =>
      if id in db.reviews { ModerateKeeps(db, env, actor, id, action, reason); }
    case VerdictOp(ours, e) => VerdictKeeps(db, ours, e);
    case RespondOp(env, actor, id, body) =>
      if id in db.reviews { RespondKeeps(db, env, actor, id, body); }
  }

  lemma BulkWriteKeeps(db: Db, op: Op)
    requires Inv(db) && (op.DeletedOp? || op.MergeOp? || op.BackfillOp? || op.WaitOp?)
    ensures Inv(Apply(db, op))
  {
    match op
    case DeletedOp(user) => DeletedKeeps(db, user);
    case MergeOp(env, from, into, survivorExists) => MergeKeeps(db, env, from, into, survivorExists);
    case BackfillOp(env, done) => StampKeeps(db, env, done);
    case WaitOp(ticks, lag) => WaitKeeps(db, ticks, lag);
  }

  lemma {:induction false} RunKeeps(db: Db, ops: seq<Op>)
    requires Inv(db)
    ensures Inv(Run(db, ops))
  {
    if ops != [] {
      RunKeeps(db, ops[..|ops| - 1]);
      ApplyKeeps(Run(db, ops[..|ops| - 1]), ops[|ops| - 1]);
    }
  }

  /** After any run from nothing, a consumer that kept only each target's last
      fact has every live aggregate, and one that kept only each review's last
      fact has exactly the visible set. */
  lemma FactsAgreeWithRows(ops: seq<Op>, t: Target, id: nat)
    ensures var db := Run(EMPTY_DB, ops);
            && LastAggregate(db.log, t) == Live(db.reviews, db.nextId, t)
            && (LastKind(db.log, id) == Some(PublishedFact) <==> id in db.reviews && Visible(db.reviews[id].status))
            && Alternates(db.log)
            && OnePerAuthor(db.reviews)
            && db.responses.Keys <= db.reviews.Keys
  {
    EmptyInv();
    RunKeeps(EMPTY_DB, ops);
    var db := Run(EMPTY_DB, ops);
    assert Recorded(db.reviews, db.nextId, id, LastKind(db.log, id));
  }

  // ----- the log only grows, and nothing goes back to pending -----

  /** What any single write may do to the log and to a row's status. */
  ghost predicate Forward(db: Db, db': Db) {
    && db.log <= db'.log && db.nextId <= db'.nextId && db.clock <= db'.clock
    && forall id :: id in db'.reviews && id < db.nextId ==>
         id in db.reviews && (db'.reviews[id].status == Pending ==> db.reviews[id].status == Pending)
  }

  lemma {:induction false} DropDuplicatesForward(db: Db, env: Env, loaded: Table, ids: seq<nat>, taken: set<Target>)
    requires forall id :: id in ids ==> id in loaded
    ensures Forward(db, DropDuplicates(db, env, loaded, ids, taken))
  {
    if ids != [] {
      var k := |ids| - 1;
      DropDuplicatesForward(db, env, loaded, ids[..k], taken);
    }
  }

  lemma {:induction false} AnnounceForward(db: Db, loaded: Table, ids: seq<nat>, reason: string)
    requires forall id :: id in ids ==> id in loaded
    ensures Forward(db, Announce(db, loaded, ids, reason))
  {
    if ids != [] { AnnounceForward(db, loaded, ids[..|ids| - 1], reason); }
  }

  lemma EraseForward(db: Db, u: UserId)
    ensures Forward(db, Erase(db, u))
  {
    var ids := NewestFirst(db.reviews, db.nextId, VisibleBy(u));
    NewestFirstIds(db.reviews, db.nextId, VisibleBy(u));
    AnnounceForward(DropResponsesBy(RemoveRows(db, IdsOf(db.reviews, AuthoredBy(u))), u), db.reviews, ids, "erased");
  }

  lemma CarryOverForward(db: Db, env: Env, from: UserId, into: UserId)
    ensures Forward(db, CarryOver(db, env, from, into))
  {
    NewestFirstIds(db.reviews, db.nextId, AuthoredBy(from));
    DropDuplicatesForward(db, env, db.reviews, NewestFirst(db.reviews, db.nextId, AuthoredBy(from)),
                          TargetsBy(db.reviews, into));
  }

  lemma CreateForward(db: Db, env: Env, req: Request)
    ensures Forward(db, Create(db, env, req).0)
  {
  }

  lemma SetStatusForward(db: Db, id: nat, status: Status, reason: string)
    requires id in db.reviews && status != Pending
    ensures Forward(db, SetStatus(db, id, status, reason))
  {
  }

  lemma ModerateForward(db: Db, env: Env, actor: Actor, id: nat, action: string, reason: string)
    requires id in db.reviews
    ensures Forward(db, Moderate(db, env, actor, id, action, reason).0)
  {
    ModerateIsSetStatus(db, env, actor, id, action, reason);
    SetStatusForward(db, id, if action == "hide" then Hidden else Published, reason);
  }

  lemma VerdictForward(db: Db, ours: string, e: VerdictEvent)
    ensures Forward(db, HandleModerationCompleted(db, ours, e))
  {
    VerdictIsSetStatus(db, ours, e);
    if e.key.Names? && e.key.id in db.reviews {
      var reason := if e.reasonCode != "" then e.reasonCode else e.note;
      SetStatusForward(db, e.key.id, Published, reason);
      SetStatusForward(db, e.key.id, Hidden, reason);
    }
  }

  lemma RespondForward(db: Db, env: Env, actor: Actor, id: nat, body: string)
    requires id in db.reviews
    ensures Forward(db, Respond(db, env, actor, id, body).0)
  {
    RespondTouchesReplies(db, env, actor, id, body);
  }

  lemma DeletedForward(db: Db, user: UserId)
    ensures Forward(db, HandleUserDeleted(db, user))
  {
    EraseForward(db, user);
  }

  lemma MergeForward(db: Db, env: Env, from: UserId, into: UserId, survivorExists: bool)
    ensures Forward(db, Merge(db, env, from, into, survivorExists).0)
  {
    MergeIsCarryOver(db, env, from, into, survivorExists);
    CarryOverForward(db, env, from, into);
  }

  lemma ApplyForward(db: Db, op: Op)
    ensures Forward(db, Apply(db, op))
  {
    match op
    case CreateOp(env, req) => CreateForward(db, env, req);
    case ModerateOp(env, actor, id, action, reason) =>
      if id in db.reviews { ModerateForward(db, env, actor, id, action, reason); }
    case VerdictOp(ours, e) => VerdictForward(db, ours, e);
    case RespondOp(env, actor, id, body) =>
      if id in db.reviews { RespondForward(db, env, actor, id, body); }
    case DeletedOp(user) => DeletedForward(db, user);
    case MergeOp(env, from, into, survivorExists) => MergeForward(db, env, from, into, survivorExists);
    case _ =>
  }

  lemma {:induction false} RunForward(db: Db, ops: seq<Op>)
    ensures Forward(db, Run(db, ops))
  {
    if ops != [] {
      RunForward(db, ops[..|ops| - 1]);
      ApplyForward(Run(db, ops[..|ops| - 1]), ops[|ops| - 1]);
    }
  }

  lemma {:induction false} RunSplits(db: Db, ops: seq<Op>, k: nat)
    requires k <= |ops|
    ensures Run(db, ops) == Run(Run(db, ops[..k]), ops[k..])
    decreases |ops|
  {
    if k == |ops| {
      assert ops[..k] == ops;
    } else {
      var n := |ops| - 1;
      RunSplits(db, ops[..n], k);
      SlicesOfFront(ops, n, k);
    }
  }

  lemma SlicesOfFront(ops: seq<Op>, n: nat, k: nat)
    requires k <= n && |ops| == n + 1
    ensures ops[..n][..k] == ops[..k] && ops[..n][k..] == ops[k..][..n - k] && ops[k..][n - k] == ops[n]
  {
  }

  // ----- what the writes do to the rows -----

  /** Only when and how the row is shown has changed. */
  ghost predicate SameButStatus(r: Review, r': Review) {
    r' == r.(status := r'.status, updatedAt := r'.updatedAt)
  }

  ghost predicate OnlyStatuses(m: Table, m': Table) {
    m'.Keys == m.Keys && forall id :: id in m ==> SameButStatus(m[id], m'[id])
  }

  predicate MovesNoRow(op: Op) {
    op.ModerateOp? || op.VerdictOp? || op.RespondOp? || op.WaitOp?
  }

  lemma SetStatusRows(db: Db, id: nat, status: Status, reason: string)
    requires id in db.reviews
    ensures OnlyStatuses(db.reviews, SetStatus(db, id, status, reason).reviews)
    ensures SetStatus(db, id, status, reason).responses == db.responses
  {
  }

  lemma ModerateRows(db: Db, env: Env, actor: Actor, id: nat, action: string, reason: string)
    requires id in db.reviews
    ensures var db' := Moderate(db, env, actor, id, action, reason).0;
            OnlyStatuses(db.reviews, db'.reviews) && db'.responses == db.responses
  {
    ModerateIsSetStatus(db, env, actor, id, action, reason);
    SetStatusRows(db, id, if action == "hide" then Hidden else Published, reason);
  }

  lemma VerdictRows(db: Db, ours: string, e: VerdictEvent)
    ensures var db' := HandleModerationCompleted(db, ours, e);
            OnlyStatuses(db.reviews, db'.reviews) && db'.responses == db.responses
  {
    VerdictIsSetStatus(db, ours, e);
    if e.key.Names? && e.key.id in db.reviews {
      var reason := if e.reasonCode != "" then e.reasonCode else e.note;
      SetStatusRows(db, e.key.id, Published, reason);
      SetStatusRows(db, e.key.id, Hidden, reason);
    }
  }

  /** Moderation, verdicts, replies and waiting leave every row's target, owner,
      author, rating and flag alone. */
  lemma NoRowMoves(db: Db, op: Op)
    requires MovesNoRow(op)
    ensures OnlyStatuses(db.reviews, Apply(db, op).reviews)
    ensures !op.RespondOp? ==> Apply(db, op).responses == db.responses
  {
    match op
    case ModerateOp(env, actor, id, action, reason) =>
      if id in db.reviews { ModerateRows(db, env, actor, id, action, reason); }
    case VerdictOp(ours, e) => VerdictRows(db, ours, e);
    case RespondOp(env, actor, id, body) =>
      if id in db.reviews { RespondTouchesReplies(db, env, actor, id, body); }
    case WaitOp(_, _) =>
  }

  /** A create adds one row, the admitted one, or nothing. */
  lemma CreateRows(db: Db, env: Env, req: Request)
    ensures var db' := Create(db, env, req).0;
            && db'.responses == db.responses
            && (db'.reviews == db.reviews ||
                (Admit(db, env, req).Ok?
                 && db'.reviews == db.reviews[db.nextId := NewRow(Admit(db, env, req).value, db.clock)]))
  {
  }

  // ----- ratings -----

  ghost predicate RatingsWithin(m: Table, lo: int, hi: int) {
    forall id :: id in m ==> lo <= m[id].rating <= hi
  }

  lemma {:induction false} AnnounceRows(db: Db, loaded: Table, ids: seq<nat>, reason: string)
    requires forall id :: id in ids ==> id in loaded
    ensures Announce(db, loaded, ids, reason).reviews == db.reviews
    ensures Announce(db, loaded, ids, reason).responses == db.responses
  {
    AnnounceTouchesLogOnly(db, loaded, ids, reason);
  }

  lemma EraseRows(db: Db, u: UserId)
    ensures var db' := Erase(db, u);
            && db'.reviews == db.reviews - IdsOf(db.reviews, AuthoredBy(u))
            && db'.responses == DropResponsesBy(RemoveRows(db, IdsOf(db.reviews, AuthoredBy(u))), u).responses
  {
    NewestFirstIds(db.reviews, db.nextId, VisibleBy(u));
    AnnounceRows(DropResponsesBy(RemoveRows(db, IdsOf(db.reviews, AuthoredBy(u))), u), db.reviews,
                 NewestFirst(db.reviews, db.nextId, VisibleBy(u)), "erased");
  }

  lemma DeletedRows(db: Db, u: UserId)
    ensures HandleUserDeleted(db, u) == if u == "" then db else Erase(db, u)
    ensures var db' := HandleUserDeleted(db, u);
            && db'.reviews.Keys <= db.reviews.Keys && db'.responses.Keys <= db.responses.Keys
            && (forall id :: id in db'.reviews ==> db'.reviews[id] == db.reviews[id])
            && (forall id :: id in db'.responses ==> db'.responses[id] == db.responses[id])
            && (forall id :: id in db.reviews ==> (id in db'.reviews <==> u == "" || db.reviews[id].author != u))
  {
    EraseRows(db, u);
  }

  lemma MergeKeepsRatings(db: Db, env: Env, from: UserId, into: UserId, survivorExists: bool, lo: int, hi: int)
    requires Keyed(db) && RatingsWithin(db.reviews, lo, hi)
    ensures RatingsWithin(Merge(db, env, from, into, survivorExists).0.reviews, lo, hi)
  {
    MergeIsCarryOver(db, env, from, into, survivorExists);
    if from != into { MergedRows(db, env, from, into); }
  }

  lemma CreateKeepsRatings(db: Db, env: Env, req: Request)
    requires RatingsWithin(db.reviews, env.ratingMin, env.ratingMax)
    ensures RatingsWithin(Create(db, env, req).0.reviews, env.ratingMin, env.ratingMax)
  {
    AdmittedIsNotHidden(db, env, req);
    CreateRows(db, env, req);
  }

  lemma ApplyKeepsRatings(db: Db, op: Op, lo: int, hi: int)
    requires Keyed(db) && RatingsWithin(db.reviews, lo, hi)
    requires op.CreateOp? ==> op.env.ratingMin == lo && op.env.ratingMax == hi
    ensures RatingsWithin(Apply(db, op).reviews, lo, hi)
  {
    match op
    case CreateOp(env, req) => CreateKeepsRatings(db, env, req);
    case DeletedOp(u) => DeletedRows(db, u);
    case MergeOp(env, from, into, survivorExists) => MergeKeepsRatings(db, env, from, into, survivorExists, lo, hi);
    case BackfillOp(_, _) =>
    case _ => NoRowMoves(db, op);
  }

  lemma {:induction false} RunKeepsRatings(db: Db, ops: seq<Op>, lo: int, hi: int)
    requires Inv(db) && RatingsWithin(db.reviews, lo, hi)
    requires forall k :: 0 <= k < |ops| && ops[k].CreateOp? ==> ops[k].env.ratingMin == lo && ops[k].env.ratingMax == hi
    ensures RatingsWithin(Run(db, ops).reviews, lo, hi)
  {
    if ops != [] {
      var k := |ops| - 1;
      RunKeepsRatings(db, ops[..k], lo, hi);
      RunKeeps(db, ops[..k]);
      ApplyKeepsRatings(Run(db, ops[..k]), ops[k], lo, hi);
    }
  }

  /** With fixed rating bounds of at least one, every aggregate a run can show
      lies within them, and shows a zero mean exactly when it counts nothing. */
  lemma MeansStayHonest(ops: seq<Op>, lo: int, hi: int, t: Target)
    requires lo >= 1
    requires forall k :: 0 <= k < |ops| && ops[k].CreateOp? ==> ops[k].env.ratingMin == lo && ops[k].env.ratingMax == hi
    ensures var db := Run(EMPTY_DB, ops);
            var a := Live(db.reviews, db.nextId, t);
            && a == LastAggregate(db.log, t)
            && (a.avg == 0 <==> a.count == 0)
            && (a.count > 0 ==> 1000 * lo <= a.avg <= 1000 * hi)
  {
    EmptyInv();
    RunKeepsRatings(EMPTY_DB, ops, lo, hi);
    FactsAgreeWithRows(ops, t, 0);
    var db := Run(EMPTY_DB, ops);
    LiveIsHonest(db.reviews, db.nextId, t, lo, hi);
  }

  // ----- redelivery -----

  /** A write that gives user `u` nothing new. */
  predicate Quiet(op: Op, u: UserId) {
    match op
    case CreateOp(_, req) => req.author != u
    case RespondOp(_, actor, _, _) => actor != Human(u)
    case MergeOp(_, _, into, _) => into != u
    case _ => true
  }

  lemma TransferKeepsNothing(db: Db, env: Env, from: UserId, into: UserId, u: UserId)
    requires Keyed(db) && from != into && into != u && !OwnsSomething(db, u)
    ensures !OwnsSomething(CarryOver(db, env, from, into), u)
  {
    MergePostState(db, env, from, into);
    TransferredOwners(env, db.reviews, from, into, u);
  }

  lemma TransferredOwners(env: Env, m: Table, from: UserId, into: UserId, u: UserId)
    requires into != u && forall id :: id in m ==> m[id].author != u
    ensures var m' := TransferredTable(env, m, from, into); forall id :: id in m' ==> m'[id].author != u
  {
  }

  lemma QuietMergeKeepsNothing(db: Db, env: Env, from: UserId, into: UserId, survivorExists: bool, u: UserId)
    requires Keyed(db) && into != u && !OwnsSomething(db, u)
    ensures !OwnsSomething(Merge(db, env, from, into, survivorExists).0, u)
  {
    MergeIsCarryOver(db, env, from, into, survivorExists);
    if from != into { TransferKeepsNothing(db, env, from, into, u); }
  }

  lemma QuietCreateKeepsNothing(db: Db, env: Env, req: Request, u: UserId)
    requires req.author != u && !OwnsSomething(db, u)
    ensures !OwnsSomething(Create(db, env, req).0, u)
  {
    AdmittedIsNotHidden(db, env, req);
    CreateRows(db, env, req);
  }

  lemma QuietReplyKeepsNothing(db: Db, env: Env, actor: Actor, id: nat, body: string, u: UserId)
    requires id in db.reviews && actor != Human(u) && !OwnsSomething(db, u)
    ensures !OwnsSomething(Respond(db, env, actor, id, body).0, u)
  {
  }

  lemma ApplyQuietKeepsNothing(db: Db, op: Op, u: UserId)
    requires Keyed(db) && !OwnsSomething(db, u) && Quiet(op, u)
    ensures !OwnsSomething(Apply(db, op), u)
  {
    match op
    case CreateOp(env, req) => QuietCreateKeepsNothing(db, env, req, u);
    case RespondOp(env, actor, id, body) =>
      if id in db.reviews { QuietReplyKeepsNothing(db, env, actor, id, body, u); }
    case DeletedOp(v) => DeletedRows(db, v);
    case MergeOp(env, from, into, survivorExists) => QuietMergeKeepsNothing(db, env, from, into, survivorExists, u);
    case BackfillOp(_, _) =>
    case _ => NoRowMoves(db, op);
  }

  lemma {:induction false} RunQuietKeepsNothing(db: Db, ops: seq<Op>, u: UserId)
    requires Inv(db) && !OwnsSomething(db, u)
    requires forall k :: 0 <= k < |ops| ==> Quiet(ops[k], u)
    ensures !OwnsSomething(Run(db, ops), u)
  {
    if ops != [] {
      var k := |ops| - 1;
      RunQuietKeepsNothing(db, ops[..k], u);
      RunKeeps(db, ops[..k]);
      ApplyQuietKeepsNothing(Run(db, ops[..k]), ops[k], u);
    }
  }

  lemma MergeOfNothing(db: Db, env: Env, from: UserId, into: UserId, survivorExists: bool)
    requires from == "" || into == "" || from == into || !OwnsSomething(db, from)
    ensures Merge(db, env, from, into, survivorExists) == (db, Ok(0))
  {
  }

  lemma GuestStaysEmpty(db: Db, env: Env, from: UserId, into: UserId, ops: seq<Op>)
    requires Inv(db) && Merge(db, env, from, into, true).1.Ok?
    requires from != "" && into != "" && from != into
    requires forall k :: 0 <= k < |ops| ==> Quiet(ops[k], from)
    ensures !OwnsSomething(Run(Apply(db, MergeOp(env, from, into, true)), ops), from)
  {
    var merged := MergedGuest(db, env, from, into);
    RunQuietKeepsNothing(merged, ops, from);
  }

  lemma MergedGuest(db: Db, env: Env, from: UserId, into: UserId) returns (merged: Db)
    requires Inv(db) && Merge(db, env, from, into, true).1.Ok?
    requires from != "" && into != "" && from != into
    ensures merged == Apply(db, MergeOp(env, from, into, true)) && Inv(merged) && !OwnsSomething(merged, from)
  {
    MergeEmptiesGuest(db, env, from, into, true);
    MergeKeeps(db, env, from, into, true);
    merged := Merge(db, env, from, into, true).0;
  }

  /** A completed merge may be delivered again after anything at all has
      happened, short of the guest writing something new, under any policies
      and whether or not the survivor still exists: nothing changes. */
  lemma RedeliveredMergeIsNothing(db: Db, env: Env, from: UserId, into: UserId, ops: seq<Op>,
                                  env': Env, survivorExists: bool)
    requires Inv(db) && Merge(db, env, from, into, true).1.Ok?
    requires forall k :: 0 <= k < |ops| ==> Quiet(ops[k], from)
    ensures var later := Run(Apply(db, MergeOp(env, from, into, true)), ops);
            Merge(later, env', from, into, survivorExists) == (later, Ok(0))
  {
    if from != "" && into != "" && from != into { GuestStaysEmpty(db, env, from, into, ops); }
    MergeOfNothing(Run(Apply(db, MergeOp(env, from, into, true)), ops), env', from, into, survivorExists);
  }

  /** What an erasure keeps: the reviews of others, and on those the replies of
      others, each as it was. */
  ghost predicate KeptByErasure(db: Db, db': Db, u: UserId) {
    && (forall id :: id in db'.reviews <==> id in db.reviews && db.reviews[id].author != u)
    && (forall id :: id in db'.reviews ==> db'.reviews[id] == db.reviews[id])
    && (forall id :: id in db'.responses <==>
          id in db.responses && db.responses[id].author != u && id in db.reviews && db.reviews[id].author != u)
    && (forall id :: id in db'.responses ==> db'.responses[id] == db.responses[id])
    && db'.nextId == db.nextId
  }

  lemma EraseContract(db: Db, u: UserId)
    requires Keyed(db)
    ensures KeptByErasure(db, Erase(db, u), u)
  {
    EraseRows(db, u);
    var gone := IdsOf(db.reviews, AuthoredBy(u));
    forall id
      ensures id in gone <==> id in db.reviews && db.reviews[id].author == u
    {
    }
    NewestFirstIds(db.reviews, db.nextId, VisibleBy(u));
    AnnounceTouchesLogOnly(DropResponsesBy(RemoveRows(db, gone), u), db.reviews,
                           NewestFirst(db.reviews, db.nextId, VisibleBy(u)), "erased");
  }

  /** Erasure leaves nothing by the user and nothing dangling, keeps everything
      else, and again is nothing: no row, no reply and no fact. */
  lemma ErasureIsCompleteAndOnce(db: Db, u: UserId)
    requires Inv(db)
    ensures var db' := Erase(db, u);
            && !OwnsSomething(db', u)
            && db'.responses.Keys <= db'.reviews.Keys
            && KeptByErasure(db, db', u)
            && Erase(db', u) == db'
  {
    EraseContract(db, u);
    EraseRows(db, u);
    EraseKeeps(db, u);
    ErasingNothing(Erase(db, u), u);
  }

  /** What an erasure amounts to, for whoever carries it out step by step. */
  lemma ErasedStore(db: Db, u: UserId) returns (db': Db)
    requires Inv(db)
    ensures db' == Erase(db, u) && Inv(db') && !OwnsSomething(db', u) && KeptByErasure(db, db', u)
  {
    ErasureIsCompleteAndOnce(db, u);
    EraseKeeps(db, u);
    db' := Erase(db, u);
  }

  /** An erasure delivered again after anything short of new writes by the user
      changes nothing and emits nothing. */
  lemma RedeliveredErasureIsNothing(db: Db, u: UserId, ops: seq<Op>)
    requires Inv(db) && forall k :: 0 <= k < |ops| ==> Quiet(ops[k], u)
    ensures var later := Run(Erase(db, u), ops); Erase(later, u) == later
  {
    ErasureIsCompleteAndOnce(db, u);
    EraseKeeps(db, u);
    RunQuietKeepsNothing(Erase(db, u), ops, u);
    ErasingNothing(Run(Erase(db, u), ops), u);
  }

  /** An erasure emits one hidden fact for each visible review it removes, newest
      first, and nothing else. */
  lemma EraseFacts(db: Db, u: UserId)
    ensures var log, ids := Erase(db, u).log, NewestFirst(db.reviews, db.nextId, VisibleBy(u));
            db.log <= log && HiddenFacts(log[|db.log|..], ids, db.reviews, "erased")
  {
    NewestFirstIds(db.reviews, db.nextId, VisibleBy(u));
    AnnounceFacts(DropResponsesBy(RemoveRows(db, IdsOf(db.reviews, AuthoredBy(u))), u), db.reviews,
                  NewestFirst(db.reviews, db.nextId, VisibleBy(u)), "erased");
  }

  lemma ErasingNothing(db: Db, u: UserId)
    requires !OwnsSomething(db, u)
    ensures Erase(db, u) == db
  {
    NewestFirstIds(db.reviews, db.nextId, VisibleBy(u));
    NothingPicked(db.reviews, db.nextId, VisibleBy(u));
    assert IdsOf(db.reviews, AuthoredBy(u)) == {};
    assert DropResponsesBy(RemoveRows(db, {}), u) == db;
  }

  lemma {:induction false} NothingPicked(m: Table, n: nat, w: Where)
    requires forall id :: id in m ==> !w(m[id])
    ensures NewestFirst(m, n, w) == []
  {
    if n > 0 { NothingPicked(m, n - 1, w); }
  }
}
