/** What each call does, told from the policies as the host wrote them and from
    the columns of the rows: no resolved policy, no check and no filter of the
    engine is named. */
module Contracts {
  import opened Model
  import opened Registry
  import opened Aggregates
  import opened Engine
  import opened Invariants
  import opened Merging
  import opened Runs
  import opened Outcomes
  import opened Ordering
  import opened Backfilling

  // ----- create -----

  ghost predicate Reviewed(m: Table, t: Target, u: UserId) {
    exists id :: id in m && m[id].target == t && m[id].author == u
  }

  /** Pre-moderation, by the policy's word or, where it has none, the settings'. */
  ghost predicate StartsPending(s: Settings, raw: RawPolicy) {
    raw.moderation == Some("pre") || (raw.moderation == None && s.moderationDefault == "pre")
  }

  ghost predicate MayCreate(db: Db, s: Settings, types: map<string, RawPolicy>, req: Request) {
    && req.target.ttype in types && s.ratingMin <= req.rating <= s.ratingMax
    && var raw := types[req.target.ttype];
    && (raw.onePerAuthor == Some(true) ==> !Reviewed(db.reviews, req.target, req.author))
    && (raw.canReview.Some? ==> Admits(raw.canReview.value(req.author, req.target)))
    && exists owner ::
         NamesOwner(raw.ownerKeyFor, req.target, owner)
         && (raw.allowSelfReview == Some(true) || owner == "" || owner != req.author)
  }

  /** The first check that fails names the error. */
  ghost predicate CreateError(db: Db, s: Settings, types: map<string, RawPolicy>, req: Request, e: Error) {
    if req.target.ttype !in types then e == UnknownTargetType
    else if !(s.ratingMin <= req.rating <= s.ratingMax) then e == InvalidRating
    else
      var raw := types[req.target.ttype];
      if raw.onePerAuthor == Some(true) && Reviewed(db.reviews, req.target, req.author) then e == DuplicateReview
      else if raw.canReview.Some? && raw.canReview.value(req.author, req.target) == GateRaises then e == HostFailure
      else if raw.canReview.Some? && !Admits(raw.canReview.value(req.author, req.target)) then e == NotAllowedToReview
      else if !exists owner :: NamesOwner(raw.ownerKeyFor, req.target, owner) then e == HostFailure
      else e == SelfReview
  }

  ghost predicate IsCreated(r: Review, s: Settings, raw: RawPolicy, req: Request, now: nat) {
    && r.target == req.target && r.author == req.author && r.rating == req.rating && r.body == req.body
    && r.status == (if StartsPending(s, raw) then Pending else Published)
    && (r.uniquePerAuthor <==> raw.onePerAuthor == Some(true))
    && NamesOwner(raw.ownerKeyFor, req.target, r.ownerKey) && r.updatedAt == now
  }

  lemma CreateContract(db: Db, s: Settings, types: map<string, RawPolicy>, req: Request)
    requires Keyed(db)
    ensures var (db', res) := Create(db, EnvOf(s, types), req);
            && (res.Ok? <==> MayCreate(db, s, types, req))
            && (res.Err? ==> db' == db && CreateError(db, s, types, req, res.error))
            && (res.Ok? ==> res.value == db.nextId && CreateAdds(db, db', s, types[req.target.ttype], req))
  {
    CreateOutcome(db, EnvOf(s, types), req);
    CreateErrors(db, s, types, req);
    if Create(db, EnvOf(s, types), req).1.Ok? {
      CreatedIs(db, s, types, req);
    }
  }

  /** One row under the next id, and its fact if it is published. */
  ghost predicate CreateAdds(db: Db, db': Db, s: Settings, raw: RawPolicy, req: Request) {
    && db.nextId in db'.reviews && db'.reviews == db.reviews[db.nextId := db'.reviews[db.nextId]]
    && IsCreated(db'.reviews[db.nextId], s, raw, req, db.clock)
    && db'.responses == db.responses && db'.nextId == db.nextId + 1
    && (if db'.reviews[db.nextId].status == Published
        then OneFactAbout(db, db', PublishedFact, db.nextId, "") else db'.log == db.log)
  }

  lemma CreateErrors(db: Db, s: Settings, types: map<string, RawPolicy>, req: Request)
    requires Keyed(db)
    ensures var res := Create(db, EnvOf(s, types), req).1; res.Err? ==> CreateError(db, s, types, req, res.error)
  {
    SerialCreateIsAdmitted(db, EnvOf(s, types), req);
    if req.target.ttype in types {
      ResolvedIsNamed(EnvOf(s, types).types[req.target.ttype], req.target);
    }
  }

  lemma SerialCreateIsAdmitted(db: Db, env: Env, req: Request)
    ensures Create(db, env, req).1.Err? ==> Admit(db, env, req) == Err(Create(db, env, req).1.error)
  {
  }

  lemma CreatedIs(db: Db, s: Settings, types: map<string, RawPolicy>, req: Request)
    requires Keyed(db) && Create(db, EnvOf(s, types), req).1.Ok?
    ensures Create(db, EnvOf(s, types), req).1.value == db.nextId
    ensures CreateAdds(db, Create(db, EnvOf(s, types), req).0, s, types[req.target.ttype], req)
  {
    ResolvedIsNamed(EnvOf(s, types).types[req.target.ttype], req.target);
  }

  // ----- moderation and verdicts -----

  ghost predicate MayModerateBy(types: map<string, RawPolicy>, actor: Actor, t: Target) {
    actor.Human? ==>
      && t.ttype in types && types[t.ttype].canModerate.Some?
      && Admits(types[t.ttype].canModerate.value(actor.id, t))
  }

  ghost predicate ModerateError(types: map<string, RawPolicy>, actor: Actor, t: Target, action: string, e: Error) {
    if action != "hide" && action != "publish" then e == InvalidModerationAction
    else
      && actor.Human?
      && if t.ttype !in types then e == UnknownTargetType
         else if types[t.ttype].canModerate.Some? && types[t.ttype].canModerate.value(actor.id, t) == GateRaises
         then e == HostFailure
         else e == NotAllowedToModerate
  }

  /** The row as it was but for status and save time, and one fact; or, where the
      status was that already, nothing. */
  ghost predicate StatusSaved(db: Db, db': Db, id: nat, status: Status, reason: string)
    requires id in db.reviews
  {
    if db.reviews[id].status == status then db' == db
    else
      && db'.reviews == db.reviews[id := db.reviews[id].(status := status, updatedAt := db.clock)]
      && db'.responses == db.responses && db'.nextId == db.nextId
      && OneFactAbout(db, db', if status == Hidden then HiddenFact else PublishedFact, id, reason)
  }

  lemma ModerateContract(db: Db, s: Settings, types: map<string, RawPolicy>, actor: Actor, id: nat, action: string, reason: string)
    requires id in db.reviews
    ensures var (db', res) := Moderate(db, EnvOf(s, types), actor, id, action, reason);
            && (res.Ok? <==> (action == "hide" || action == "publish") && MayModerateBy(types, actor, db.reviews[id].target))
            && (res.Err? ==> db' == db && ModerateError(types, actor, db.reviews[id].target, action, res.error))
            && (res.Ok? ==> StatusSaved(db, db', id, if action == "hide" then Hidden else Published, reason))
  {
    ModerateDecides(db, s, types, actor, id, action, reason);
    SetStatusContract(db, id, if action == "hide" then Hidden else Published, reason);
  }

  lemma SetStatusContract(db: Db, id: nat, status: Status, reason: string)
    requires id in db.reviews
    ensures StatusSaved(db, SetStatus(db, id, status, reason), id, status, reason)
  {
  }

  lemma ModerateDecides(db: Db, s: Settings, types: map<string, RawPolicy>, actor: Actor, id: nat, action: string, reason: string)
    requires id in db.reviews
    ensures var (db', res) := Moderate(db, EnvOf(s, types), actor, id, action, reason);
            && (res.Ok? <==> (action == "hide" || action == "publish") && MayModerateBy(types, actor, db.reviews[id].target))
            && (res.Err? ==> db' == db && ModerateError(types, actor, db.reviews[id].target, action, res.error))
            && (res.Ok? ==> db' == SetStatus(db, id, if action == "hide" then Hidden else Published, reason))
  {
  }

  /** A verdict is taken in four words; two of them act. */
  lemma VerdictContract(db: Db, id: nat, decision: string, reason: string)
    requires id in db.reviews
    ensures var (db', res) := ApplyVerdict(db, id, decision, reason);
            && (res.Ok? <==> decision in {"approved", "rejected", "needs_review", "dismissed"})
            && (res.Err? ==> res == Err(InvalidVerdictDecision) && db' == db)
            && (decision == "approved" ==> StatusSaved(db, db', id, Published, reason))
            && (decision == "rejected" ==> StatusSaved(db, db', id, Hidden, reason))
            && (decision == "needs_review" || decision == "dismissed" ==> db' == db)
  {
  }

  /** The event that carries one: the machine word is the fact's reason, the note
      where there is none. */
  lemma VerdictEventContract(db: Db, ours: string, e: VerdictEvent)
    ensures var db' := HandleModerationCompleted(db, ours, e);
            var reason := if e.reasonCode != "" then e.reasonCode else e.note;
            if e.targetType == ours && e.key.Names? && e.key.id in db.reviews && e.decision == "approved"
            then StatusSaved(db, db', e.key.id, Published, reason)
            else if e.targetType == ours && e.key.Names? && e.key.id in db.reviews && e.decision == "rejected"
            then StatusSaved(db, db', e.key.id, Hidden, reason)
            else db' == db
  {
  }

  // ----- replies -----

  ghost predicate TakesReplies(s: Settings, raw: RawPolicy) {
    raw.allowResponse == Some(true) || (raw.allowResponse == None && s.responses)
  }

  ghost predicate MayReplyBy(s: Settings, types: map<string, RawPolicy>, actor: Actor, r: Review) {
    && actor.Human? && r.target.ttype in types && TakesReplies(s, types[r.target.ttype])
    && match types[r.target.ttype].canRespond
       case Some(gate) => Admits(gate(actor.id, r.target, r.ownerKey))
       case None => r.ownerKey != "" && r.ownerKey == actor.id
  }

  ghost predicate ReplyError(db: Db, s: Settings, types: map<string, RawPolicy>, actor: Actor, r: Review, e: Error) {
    if actor.System? then e == NotAllowedToRespond
    else if r.target.ttype !in types then e == UnknownTargetType
    else
      var raw := types[r.target.ttype];
      if !TakesReplies(s, raw) then e == ResponseNotAllowed
      else if raw.canRespond.Some? && raw.canRespond.value(actor.id, r.target, r.ownerKey) == GateRaises then e == HostFailure
      else if !MayReplyBy(s, types, actor, r) then e == NotAllowedToRespond
      else e == AlreadyResponded
  }

  lemma RespondContract(db: Db, s: Settings, types: map<string, RawPolicy>, actor: Actor, id: nat, body: string)
    requires id in db.reviews
    ensures var (db', res) := Respond(db, EnvOf(s, types), actor, id, body);
            var r := db.reviews[id];
            && (res.Ok? <==> MayReplyBy(s, types, actor, r) && id !in db.responses)
            && (res.Ok? ==> db' == db.(responses := db.responses[id := Response(actor.id, body)]))
            && (res.Err? ==> db' == db && ReplyError(db, s, types, actor, r, res.error))
  {
  }

  // ----- erasure -----

  /** One hidden fact for each published review that went, newest first. */
  lemma EraseFactsContract(db: Db, u: UserId) returns (ids: seq<nat>)
    requires Keyed(db)
    ensures Descending(ids)
    ensures forall id: nat :: id in ids <==> id in db.reviews && db.reviews[id].author == u && db.reviews[id].status == Published
    ensures var log := Erase(db, u).log; db.log <= log && HiddenFacts(log[|db.log|..], ids, db.reviews, "erased")
  {
    ids := NewestFirst(db.reviews, db.nextId, VisibleBy(u));
    NewestFirstIds(db.reviews, db.nextId, VisibleBy(u));
    EraseFacts(db, u);
  }

  /** The event: without a user id nothing happens. */
  lemma DeletedContract(db: Db, u: UserId)
    requires Keyed(db)
    ensures var db' := HandleUserDeleted(db, u); if u == "" then db' == db else KeptByErasure(db, db', u)
  {
    EraseContract(db, u);
  }

  // ----- merge -----

  ghost predicate Owns(db: Db, u: UserId) {
    || (exists id :: id in db.reviews && db.reviews[id].author == u)
    || (exists id :: id in db.responses && db.responses[id].author == u)
  }

  /** A duplicate under a policy that is on: it goes, with its reply. */
  ghost predicate GivesWay(m: Table, types: map<string, RawPolicy>, from: UserId, into: UserId, r: Review) {
    && r.author == from && Reviewed(m, r.target, into)
    && r.target.ttype in types && types[r.target.ttype].onePerAuthor == Some(true)
  }

  /** A kept row: the guest's is the survivor's now, unflagged where the survivor
      had reviewed the target already. */
  ghost predicate HandedOver(m: Table, from: UserId, into: UserId, r: Review, r': Review) {
    if r.author != from then r' == r
    else r' == r.(author := into, uniquePerAuthor := r.uniquePerAuthor && !Reviewed(m, r.target, into))
  }

  ghost predicate Carried(db: Db, db': Db, types: map<string, RawPolicy>, from: UserId, into: UserId) {
    && (forall id :: id in db'.reviews <==> id in db.reviews && !GivesWay(db.reviews, types, from, into, db.reviews[id]))
    && (forall id :: id in db'.reviews ==> HandedOver(db.reviews, from, into, db.reviews[id], db'.reviews[id]))
    && (forall id :: id in db'.responses <==> id in db.responses && id in db'.reviews)
    && (forall id :: id in db'.responses ==>
          db'.responses[id].body == db.responses[id].body
          && db'.responses[id].author == if db.responses[id].author == from then into else db.responses[id].author)
    && db'.nextId == db.nextId
  }

  lemma TakenIsReviewed(m: Table, t: Target, u: UserId)
    ensures t in TargetsBy(m, u) <==> Reviewed(m, t, u)
  {
    TakenMeansAuthored(m, u, t);
    if Reviewed(m, t, u) {
      var id :| id in m && m[id].target == t && m[id].author == u;
      assert id in Authored(m, u, t);
    }
  }

  lemma OnePerIsSaid(s: Settings, types: map<string, RawPolicy>, ttype: string)
    ensures OnePer(EnvOf(s, types), ttype) <==> ttype in types && types[ttype].onePerAuthor == Some(true)
  {
  }

  lemma TransferContract(db: Db, s: Settings, types: map<string, RawPolicy>, from: UserId, into: UserId)
    requires Keyed(db) && from != into
    ensures Carried(db, CarryOver(db, EnvOf(s, types), from, into), types, from, into)
  {
    var env := EnvOf(s, types);
    MergePostState(db, env, from, into);
    forall id | id in db.reviews
      ensures Dropped(env, db.reviews, from, into, db.reviews[id]) <==> GivesWay(db.reviews, types, from, into, db.reviews[id])
      ensures HandedOver(db.reviews, from, into, db.reviews[id], Transferred(db.reviews, from, into, db.reviews[id]))
    {
      TakenIsReviewed(db.reviews, db.reviews[id].target, into);
      OnePerIsSaid(s, types, db.reviews[id].target.ttype);
    }
  }

  /** Without both ids, or with one twice, or with nothing to carry, a merge is
      nothing. With something to carry it waits, loudly, for the survivor, and
      then carries everything. */
  lemma MergeContract(db: Db, s: Settings, types: map<string, RawPolicy>, from: UserId, into: UserId, survivorExists: bool)
    requires Keyed(db)
    ensures var (db', res) := Merge(db, EnvOf(s, types), from, into, survivorExists);
            if from == "" || into == "" || from == into || !Owns(db, from) then db' == db && res == Ok(0)
            else if !survivorExists then db' == db && res == Err(MergeTargetNotReady)
            else && res.Ok? && |db.reviews| == |db'.reviews| + res.value
                 && Carried(db, db', types, from, into)
  {
    MergeCountsTheDropped(db, EnvOf(s, types), from, into, survivorExists);
    if from != into { TransferContract(db, s, types, from, into); }
  }

  // ----- backfill -----

  /** Whose a target is, for the walk: somebody only if the type is registered and
      its resolver names somebody. */
  lemma AnswerContract(s: Settings, types: map<string, RawPolicy>, t: Target)
    ensures var r := Resolve(EnvOf(s, types), t);
            && (forall owner :: r == Owner(owner) <==>
                  t.ttype in types && owner != "" && NamesOwner(types[t.ttype].ownerKeyFor, t, owner))
            && (r == NoResolver <==> t.ttype !in types || types[t.ttype].ownerKeyFor == None)
  {
    if t.ttype in types { ResolvedIsNamed(EnvOf(s, types).types[t.ttype], t); }
  }

  /** A row the call may stamp: no owner yet, and of the type asked for, if any. */
  ghost predicate Asked(r: Review, ttype: string) {
    r.ownerKey == "" && (ttype == "" || r.target.ttype == ttype)
  }

  /** Its owner, if the host can name one. */
  ghost predicate OwnedBy(types: map<string, RawPolicy>, t: Target, owner: string) {
    t.ttype in types && owner != "" && NamesOwner(types[t.ttype].ownerKeyFor, t, owner)
  }

  /** What a target's visit does to a row. */
  ghost predicate StampedBy(types: map<string, RawPolicy>, r: Review, r': Review) {
    OwnedBy(types, r.target, r'.ownerKey) && r' == r.(ownerKey := r'.ownerKey)
  }

  /** A row of another type than the one asked for is left as it was. */
  lemma OtherTypesStay(env: Env, c: Collation, m: Table, n: nat, ttype: string, batch: nat, limit: Option<int>, id: nat)
    requires batch >= 1 && id in m && ttype != "" && m[id].target.ttype != ttype
    ensures Stamp(env, SetOfTargets(Visited(env, c, m, n, ttype, batch, limit)), m)[id] == m[id]
  {
    var visited := Visited(env, c, m, n, ttype, batch, limit);
    if m[id].target in visited {
      VisitedAsked(env, c, m, n, ttype, batch, limit, m[id].target);
    }
  }

  lemma VisitedAsked(env: Env, c: Collation, m: Table, n: nat, ttype: string, batch: nat, limit: Option<int>, t: Target)
    requires batch >= 1 && t in Visited(env, c, m, n, ttype, batch, limit)
    ensures exists id :: id in m && id < n && m[id].target == t && Asked(m[id], ttype)
  {
    SortedMembers(c, m, n, Unstamped(c, ttype, None), t);
    var id: nat :| id < n && Picks(m, id, Unstamped(c, ttype, None)) && m[id].target == t;
    assert Asked(m[id], ttype);
  }

  /** Any call, with or without a limit, visits targets with a row it was asked
      for and nothing else, and leaves every row as it was but those it was asked
      for and whose owner the host names, which it stamps with that owner. */
  lemma BackfillContract(s: Settings, types: map<string, RawPolicy>, c: Collation, m: Table, n: nat, ttype: string,
                         batch: nat, limit: Option<int>)
    requires batch >= 1
    ensures var visited := Visited(EnvOf(s, types), c, m, n, ttype, batch, limit);
            var m' := Stamp(EnvOf(s, types), SetOfTargets(visited), m);
            && (forall t :: t in visited ==> ttype == "" || t.ttype == ttype)
            && m'.Keys == m.Keys
            && (forall id :: id in m ==>
                  if m[id].target in visited && Asked(m[id], ttype) && exists owner :: OwnedBy(types, m[id].target, owner)
                  then StampedBy(types, m[id], m'[id]) else m'[id] == m[id])
  {
    var env := EnvOf(s, types);
    var visited := Visited(env, c, m, n, ttype, batch, limit);
    forall t | t in visited
      ensures ttype == "" || t.ttype == ttype
    {
      VisitedAsked(env, c, m, n, ttype, batch, limit, t);
    }
    forall id | id in m
      ensures if m[id].target in visited && Asked(m[id], ttype) && exists owner :: OwnedBy(types, m[id].target, owner)
              then StampedBy(types, m[id], StampRow(env, SetOfTargets(visited), m[id]))
              else StampRow(env, SetOfTargets(visited), m[id]) == m[id]
    {
      StampRowContract(s, types, SetOfTargets(visited), m[id]);
    }
  }

  lemma StampRowContract(s: Settings, types: map<string, RawPolicy>, done: set<Target>, r: Review)
    ensures var r' := StampRow(EnvOf(s, types), done, r);
            if r.target in done && r.ownerKey == "" && exists owner :: OwnedBy(types, r.target, owner)
            then StampedBy(types, r, r') else r' == r
  {
    AnswerContract(s, types, r.target);
    if Resolve(EnvOf(s, types), r.target).Owner? {
      assert OwnedBy(types, r.target, Resolve(EnvOf(s, types), r.target).key);
    }
  }

  /** Without a limit, or with zero, every row it was asked for is visited. */
  lemma FullBackfillContract(s: Settings, types: map<string, RawPolicy>, c: Collation, m: Table, n: nat, ttype: string,
                             batch: nat, limit: Option<int>)
    requires batch >= 1 && (limit == None || limit == Some(0)) && forall id :: id in m ==> id < n
    ensures var visited := Visited(EnvOf(s, types), c, m, n, ttype, batch, limit);
            var m' := Stamp(EnvOf(s, types), SetOfTargets(visited), m);
            && (forall t :: t in visited <==> exists id :: id in m && m[id].target == t && Asked(m[id], ttype))
            && m'.Keys == m.Keys
            && (forall id :: id in m ==>
                  if Asked(m[id], ttype) && exists owner :: OwnedBy(types, m[id].target, owner)
                  then StampedBy(types, m[id], m'[id]) else m'[id] == m[id])
  {
    var env := EnvOf(s, types);
    var all := Candidates(c, m, n, ttype);
    BackfillContract(s, types, c, m, n, ttype, batch, limit);
    NoLimitNoStop(env, all, batch, limit, 0);
    assert all[..|all|] == all;
    forall t
      ensures t in all <==> exists id :: id in m && m[id].target == t && Asked(m[id], ttype)
    {
      CandidateIsAsked(c, m, n, ttype, t);
    }
    forall id | id in m && Asked(m[id], ttype)
      ensures m[id].target in all
    {
    }
  }

  lemma CandidateIsAsked(c: Collation, m: Table, n: nat, ttype: string, t: Target)
    requires forall id :: id in m ==> id < n
    ensures t in Candidates(c, m, n, ttype) <==> exists id :: id in m && m[id].target == t && Asked(m[id], ttype)
  {
    SortedMembers(c, m, n, Unstamped(c, ttype, None), t);
    if t in Candidates(c, m, n, ttype) {
      var id: nat :| id < n && Picks(m, id, Unstamped(c, ttype, None)) && m[id].target == t;
      assert Asked(m[id], ttype);
    }
    if exists id :: id in m && m[id].target == t && Asked(m[id], ttype) {
      var id :| id in m && m[id].target == t && Asked(m[id], ttype);
      assert Picks(m, id, Unstamped(c, ttype, None));
    }
  }

  ghost function WithOwner(types: map<string, RawPolicy>, s: seq<Target>): set<Target> {
    set t | t in s && exists owner :: OwnedBy(types, t, owner)
  }

  ghost function NobodyToAsk(types: map<string, RawPolicy>, s: seq<Target>): set<Target> {
    set t | t in s && (t.ttype !in types || types[t.ttype].ownerKeyFor == None)
  }

  ghost function ChangedRows(m: Table, m': Table): set<nat>
    requires m'.Keys == m.Keys
  {
    set id | id in m && m'[id] != m[id]
  }

  /** The five numbers of a call: the targets visited, by the host's answer, and
      the rows that changed. */
  lemma StatsContract(s: Settings, types: map<string, RawPolicy>, c: Collation, m: Table, n: nat, ttype: string,
                      batch: nat, limit: Option<int>)
    requires Lawful(c) && batch >= 1 && forall id :: id in m ==> id < n
    ensures var visited := Visited(EnvOf(s, types), c, m, n, ttype, batch, limit);
            var m' := Stamp(EnvOf(s, types), SetOfTargets(visited), m);
            var st := StatsOf(EnvOf(s, types), m, n, visited);
            && st.targets == |visited|
            && st.stampedTargets == |WithOwner(types, visited)|
            && st.noResolver == |NobodyToAsk(types, visited)|
            && st.targets == st.stampedTargets + st.unresolved + st.noResolver
            && m'.Keys == m.Keys && st.stampedRows == |ChangedRows(m, m')|
  {
    var env := EnvOf(s, types);
    var visited := Visited(env, c, m, n, ttype, batch, limit);
    WalkAccounting(env, c, m, n, ttype, batch, limit);
    VisitedDistinct(env, c, m, n, ttype, batch, limit);
    AnswersAreCounted(env, m, n, visited);
    StampedRowsAreTheStamped(env, m, n, visited);
    StampedAreChanged(env, m, n, SetOfTargets(visited));
    forall t
      ensures Resolve(env, t).Owner? <==> exists owner :: OwnedBy(types, t, owner)
      ensures Resolve(env, t).NoResolver? <==> t.ttype !in types || types[t.ttype].ownerKeyFor == None
    {
      AnswerContract(s, types, t);
      if Resolve(env, t).Owner? { assert OwnedBy(types, t, Resolve(env, t).key); }
    }
    assert Those(visited, t => Resolve(env, t).Owner?) == WithOwner(types, visited);
    assert Those(visited, t => Resolve(env, t).NoResolver?) == NobodyToAsk(types, visited);
  }

  lemma StampedAreChanged(env: Env, m: Table, n: nat, done: set<Target>)
    requires forall id :: id in m ==> id < n
    ensures CountOf(m, n, WillStamp(env, done)) == |ChangedRows(m, Stamp(env, done, m))|
  {
    var m' := Stamp(env, done, m);
    TallyCountsRows(m, n, WillStamp(env, done));
    forall id | id in m
      ensures m'[id] != m[id] <==> WillStamp(env, done)(m[id])
    {
      ResolvedKeyIsText(env, m[id].target);
    }
    assert IdsWhere(m, n, WillStamp(env, done)) == ChangedRows(m, m');
  }

  lemma VisitedDistinct(env: Env, c: Collation, m: Table, n: nat, ttype: string, batch: nat, limit: Option<int>)
    requires Lawful(c) && batch >= 1
    ensures var s := Visited(env, c, m, n, ttype, batch, limit); forall i, j :: 0 <= i < j < |s| ==> s[i] != s[j]
  {
    var s := Visited(env, c, m, n, ttype, batch, limit);
    SortedIncreasing(c, m, n, Unstamped(c, ttype, None));
    forall i, j | 0 <= i < j < |s|
      ensures s[i] != s[j]
    {
      BeforeIsStrict(c, s[i], s[j]);
    }
  }
}
