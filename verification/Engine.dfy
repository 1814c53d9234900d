/** The writes of the review engine, as functions from store to store. A call
    that raises leaves the store as it was: every write is one transaction. */
module Engine {
  import opened Model
  import opened Registry
  import opened Aggregates

  // ----- facts -----

  /** Append the visibility fact of `r`, carrying the target's aggregate as it
      is now. `r` is the in-memory row, which may no longer be stored. */
  function Emit(db: Db, kind: FactKind, id: nat, r: Review, reason: string): Db {
    var now := db.clock + db.lag;
    var fact := Fact(kind, id, r.target, r.author, r.rating, r.status, reason,
                     Live(db.reviews, db.nextId, r.target), now);
    db.(log := db.log + [fact], clock := now + 1)
  }

  // ----- row selections -----

  function AuthoredBy(u: UserId): Where {
    (r: Review) => r.author == u
  }

  function VisibleBy(u: UserId): Where {
    (r: Review) => r.author == u && Visible(r.status)
  }

  /** The model's default ordering: newest row first. */
  function NewestFirst(m: Table, n: nat, w: Where): seq<nat> {
    if n == 0 then []
    else (if Picks(m, n - 1, w) then [n - 1] else []) + NewestFirst(m, n - 1, w)
  }

  predicate HasReview(m: Table, t: Target, u: UserId) {
    exists id :: id in m && m[id].target == t && m[id].author == u
  }

  // ----- create -----

  datatype Request = Request(target: Target, author: UserId, rating: int, body: string)

  /** A row that passed every check and is about to be inserted. */
  datatype Draft = Draft(
    target: Target,
    ownerKey: string,
    author: UserId,
    rating: int,
    body: string,
    status: Status,
    uniquePerAuthor: bool)

  /** Everything create_review asks before it writes. */
  function Admit(db: Db, env: Env, req: Request): Result<Draft> {
    match Lookup(env, req.target.ttype)
    case None => Err(UnknownTargetType)
    case Some(p) =>
      if req.rating < env.ratingMin || req.rating > env.ratingMax then Err(InvalidRating)
      else if p.onePerAuthor && HasReview(db.reviews, req.target, req.author) then Err(DuplicateReview)
      else
        match CheckCanReview(p, req.author, req.target)
        case Raised => Err(HostFailure)
        case No => Err(NotAllowedToReview)
        case Yes =>
          match ResolveOwnerKey(p, req.target)
          case Err(e) => Err(e)
          case Ok(owner) =>
            if !p.allowSelfReview && IsOwner(owner, req.author) then Err(SelfReview)
            else Ok(Draft(req.target, owner, req.author, req.rating, req.body,
                          if p.moderation == "pre" then Pending else Published, p.onePerAuthor))
  }

  /** The partial unique constraint refuses the draft. */
  predicate Collides(m: Table, d: Draft) {
    d.uniquePerAuthor
    && exists id :: id in m && m[id].uniquePerAuthor && m[id].target == d.target && m[id].author == d.author
  }

  function NewRow(d: Draft, now: nat): Review {
    Review(d.target, d.ownerKey, d.author, d.rating, d.body, d.status, d.uniquePerAuthor, now)
  }

  function Insert(db: Db, d: Draft): Db {
    var r := NewRow(d, db.clock);
    var stored := db.(reviews := db.reviews[db.nextId := r], nextId := db.nextId + 1);
    if d.status == Published then Emit(stored, PublishedFact, db.nextId, r, "") else stored
  }

  /** What a refused insert answers, after looking again. */
  function AfterRefusal(m: Table, d: Draft): Error {
    if d.uniquePerAuthor && HasReview(m, d.target, d.author) then DuplicateReview else IntegrityError
  }

  function Create(db: Db, env: Env, req: Request): (Db, Result<nat>) {
    match Admit(db, env, req)
    case Err(e) => (db, Err(e))
    case Ok(d) =>
      if Collides(db.reviews, d) then (db, Err(AfterRefusal(db.reviews, d)))
      else (Insert(db, d), Ok(db.nextId))
  }

  // ----- moderation -----

  datatype Actor = System | Human(id: UserId)

  /** Save the status and emit, or nothing at all when it is already set. */
  function SetStatus(db: Db, id: nat, status: Status, reason: string): Db
    requires id in db.reviews
  {
    if db.reviews[id].status == status then db
    else
      var r := db.reviews[id].(status := status, updatedAt := db.clock);
      var kind := if status == Hidden then HiddenFact else PublishedFact;
      Emit(db.(reviews := db.reviews[id := r]), kind, id, r, reason)
  }

  function Moderate(db: Db, env: Env, actor: Actor, id: nat, action: string, reason: string): (Db, Result<()>)
    requires id in db.reviews
  {
    if action != "hide" && action != "publish" then (db, Err(InvalidModerationAction))
    else
      var r := db.reviews[id];
      var done := (SetStatus(db, id, if action == "hide" then Hidden else Published, reason), Ok(()));
      match actor
      case System => done
      case Human(u) =>
        match Lookup(env, r.target.ttype)
        case None => (db, Err(UnknownTargetType))
        case Some(p) =>
          match CheckCanModerate(p, u, r.target)
          case Raised => (db, Err(HostFailure))
          case No => (db, Err(NotAllowedToModerate))
          case Yes => done
  }

  /** VERDICT_ACTIONS: the status a verdict word moves a review to. */
  function VerdictStatus(decision: string): Result<Option<Status>> {
    if decision == "approved" then Ok(Some(Published))
    else if decision == "rejected" then Ok(Some(Hidden))
    else if decision == "needs_review" || decision == "dismissed" then Ok(None)
    else Err(InvalidVerdictDecision)
  }

  function ApplyVerdict(db: Db, id: nat, decision: string, reason: string): (Db, Result<()>)
    requires id in db.reviews
  {
    match VerdictStatus(decision)
    case Err(e) => (db, Err(e))
    case Ok(None) => (db, Ok(()))
    case Ok(Some(s)) => (SetStatus(db, id, s, reason), Ok(()))
  }

  /** The key of an incoming verdict: absent, not an id, or a review id. */
  datatype ReviewRef = NoKey | NotAnId | Names(id: nat)

  datatype VerdictEvent = VerdictEvent(
    targetType: string, key: ReviewRef, decision: string, reasonCode: string, note: string)

  /** The consumer: what is not about a stored review, or is not understood, is
      dropped. */
  function HandleModerationCompleted(db: Db, ours: string, e: VerdictEvent): Db {
    if e.targetType != ours || e.key.NoKey? || e.decision == "" || e.key.NotAnId? then db
    else if e.key.id !in db.reviews then db
    else ApplyVerdict(db, e.key.id, e.decision, if e.reasonCode != "" then e.reasonCode else e.note).0
  }

  // ----- the owner's reply -----

  function Respond(db: Db, env: Env, actor: Actor, id: nat, body: string): (Db, Result<()>)
    requires id in db.reviews
  {
    match actor
    case System => (db, Err(NotAllowedToRespond))
    case Human(u) =>
      var r := db.reviews[id];
      match Lookup(env, r.target.ttype)
      case None => (db, Err(UnknownTargetType))
      case Some(p) =>
        if !p.allowResponse then (db, Err(ResponseNotAllowed))
        else
          match CheckCanRespond(p, u, r.target, r.ownerKey)
          case Raised => (db, Err(HostFailure))
          case No => (db, Err(NotAllowedToRespond))
          case Yes =>
            if id in db.responses then (db, Err(AlreadyResponded))
            else (db.(responses := db.responses[id := Response(u, body)]), Ok(()))
  }

  // ----- erasure -----

  /** Delete rows; each takes its response with it. */
  function RemoveRows(db: Db, gone: set<nat>): Db {
    db.(reviews := db.reviews - gone, responses := db.responses - gone)
  }

  /** Hidden facts for rows that were loaded before they were deleted, in order. */
  function Announce(db: Db, loaded: Table, ids: seq<nat>, reason: string): Db
    requires forall id :: id in ids ==> id in loaded
  {
    if ids == [] then db
    else
      var k := |ids| - 1;
      Emit(Announce(db, loaded, ids[..k], reason), HiddenFact, ids[k],
           loaded[ids[k]].(status := Hidden), reason)
  }

  function IdsOf(m: Table, w: Where): set<nat> {
    set id | id in m && w(m[id])
  }

  function DropResponsesBy(db: Db, u: UserId): Db {
    db.(responses := map id | id in db.responses && db.responses[id].author != u :: db.responses[id])
  }

  lemma {:induction false} NewestFirstIds(m: Table, n: nat, w: Where)
    ensures forall id: nat :: id in NewestFirst(m, n, w) <==> id < n && Picks(m, id, w)
    ensures Descending(NewestFirst(m, n, w))
  {
    if n > 0 {
      NewestFirstIds(m, n - 1, w);
      var rest := NewestFirst(m, n - 1, w);
      forall i | 0 <= i < |rest|
        ensures rest[i] < n - 1
      {
        assert rest[i] in rest;
      }
    }
  }

  ghost predicate Descending(ids: seq<nat>) {
    forall i, j :: 0 <= i < j < |ids| ==> ids[i] > ids[j]
  }

  function Erase(db: Db, u: UserId): Db {
    NewestFirstIds(db.reviews, db.nextId, VisibleBy(u));
    Announce(DropResponsesBy(RemoveRows(db, IdsOf(db.reviews, AuthoredBy(u))), u),
             db.reviews, NewestFirst(db.reviews, db.nextId, VisibleBy(u)), "erased")
  }

  function HandleUserDeleted(db: Db, u: UserId): Db {
    if u == "" then db else Erase(db, u)
  }

  // ----- merge -----

  /** A registered type whose policy allows one review per author. */
  predicate OnePer(env: Env, ttype: string) {
    Lookup(env, ttype).Some? && Lookup(env, ttype).value.onePerAuthor
  }

  function TargetsBy(m: Table, u: UserId): set<Target> {
    set id | id in m && m[id].author == u :: m[id].target
  }

  function ClearFlag(db: Db, id: nat): Db
    requires id in db.reviews
  {
    db.(reviews := db.reviews[id := db.reviews[id].(uniquePerAuthor := false)])
  }

  /** One guest review, as loaded before the loop. */
  function DropStep(db: Db, env: Env, loaded: Table, id: nat, taken: set<Target>): Db
    requires id in loaded
  {
    if loaded[id].target !in taken then db
    else if !OnePer(env, loaded[id].target.ttype) then
      if id in db.reviews then ClearFlag(db, id) else db
    else
      var removed := RemoveRows(db, {id});
      if Visible(loaded[id].status)
      then Emit(removed, HiddenFact, id, loaded[id].(status := Hidden), "merged_duplicate")
      else removed
  }

  function DropDuplicates(db: Db, env: Env, loaded: Table, ids: seq<nat>, taken: set<Target>): Db
    requires forall id :: id in ids ==> id in loaded
  {
    if ids == [] then db
    else
      var k := |ids| - 1;
      DropStep(DropDuplicates(db, env, loaded, ids[..k], taken), env, loaded, ids[k], taken)
  }

  /** How many of `ids` the loop deletes. */
  function DroppedCount(env: Env, loaded: Table, ids: seq<nat>, taken: set<Target>): nat
    requires forall id :: id in ids ==> id in loaded
  {
    if ids == [] then 0
    else
      var k := |ids| - 1;
      DroppedCount(env, loaded, ids[..k], taken) + (if Doomed(env, taken, loaded[ids[k]]) then 1 else 0)
  }

  predicate Doomed(env: Env, taken: set<Target>, r: Review) {
    r.target in taken && OnePer(env, r.target.ttype)
  }

  /** The bulk re-authoring, restricted to the rows reached so far. */
  function Reauthor(m: Table, reached: set<nat>, from: UserId, into: UserId): Table {
    map id | id in m :: if id in reached && m[id].author == from then m[id].(author := into) else m[id]
  }

  function ReauthorResponses(rs: map<nat, Response>, from: UserId, into: UserId): map<nat, Response> {
    map id | id in rs :: if rs[id].author == from then rs[id].(author := into) else rs[id]
  }

  predicate OwnsSomething(db: Db, u: UserId) {
    || (exists id :: id in db.reviews && db.reviews[id].author == u)
    || (exists id :: id in db.responses && db.responses[id].author == u)
  }

  /** The transfer itself, once nothing stands in its way. */
  function CarryOver(db: Db, env: Env, from: UserId, into: UserId): Db {
    NewestFirstIds(db.reviews, db.nextId, AuthoredBy(from));
    var folded := DropDuplicates(db, env, db.reviews, NewestFirst(db.reviews, db.nextId, AuthoredBy(from)),
                                 TargetsBy(db.reviews, into));
    folded.(reviews := Reauthor(folded.reviews, folded.reviews.Keys, from, into),
            responses := ReauthorResponses(folded.responses, from, into))
  }

  function Merge(db: Db, env: Env, from: UserId, into: UserId, survivorExists: bool): (Db, Result<nat>) {
    if from == "" || into == "" || from == into || !OwnsSomething(db, from) then (db, Ok(0))
    else if !survivorExists then (db, Err(MergeTargetNotReady))
    else
      NewestFirstIds(db.reviews, db.nextId, AuthoredBy(from));
      (CarryOver(db, env, from, into),
       Ok(DroppedCount(env, db.reviews, NewestFirst(db.reviews, db.nextId, AuthoredBy(from)),
                       TargetsBy(db.reviews, into))))
  }

  // ----- backfill -----

  datatype Resolution = NoResolver | Unresolved | Owner(key: string)

  /** What the backfill learns about a target. A resolver that raises and one
      that names nobody are counted alike. */
  function Resolve(env: Env, t: Target): Resolution {
    match Lookup(env, t.ttype)
    case None => NoResolver
    case Some(p) =>
      if p.ownerKeyFor.None? then NoResolver
      else
        match ResolveOwnerKey(p, t)
        case Err(_) => Unresolved
        case Ok(owner) => if owner == "" then Unresolved else Owner(owner)
  }

  function StampRow(env: Env, done: set<Target>, r: Review): Review {
    if r.ownerKey == "" && r.target in done && Resolve(env, r.target).Owner?
    then r.(ownerKey := Resolve(env, r.target).key)
    else r
  }

  /** The table after the targets in `done` have been resolved and stamped. */
  function Stamp(env: Env, done: set<Target>, m: Table): Table {
    map id | id in m :: StampRow(env, done, m[id])
  }
}
