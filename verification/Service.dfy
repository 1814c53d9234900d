/** The service as it runs: two tables, a log and a clock, updated in place. Each
    method is proved to do what the engine's functions say, and to keep the
    invariant. */
module Service {
  import opened Model
  import opened Registry
  import opened Aggregates
  import opened Ordering
  import opened Engine
  import opened Invariants
  import opened Merging
  import opened Runs
  import opened Backfilling
  import opened Outcomes
  import opened Contracts

  class Store {
    var reviews: Table
    var responses: map<nat, Response>
    var log: seq<Fact>
    var nextId: nat
    var clock: nat
    var lag: nat

    ghost function State(): Db
      reads this
    {
      Db(reviews, responses, log, nextId, clock, lag)
    }

    ghost predicate Valid()
      reads this
    {
      Inv(State())
    }

    constructor ()
      ensures Valid() && State() == EMPTY_DB
    {
      reviews, responses, log, nextId, clock, lag := map[], map[], [], 0, 0, 0;
      new;
      EmptyInv();
    }

    /** services._emit_review_fact: recompute, then append. */
    method EmitReviewFact(id: nat, r: Review, kind: FactKind, reason: string)
      modifies this`log, this`clock
      ensures State() == Emit(old(State()), kind, id, r, reason)
    {
      var aggregate := Live(reviews, nextId, r.target);
      log := log + [Fact(kind, id, r.target, r.author, r.rating, r.status, reason, aggregate, clock + lag)];
      clock := clock + lag + 1;
    }

    /** services.create_review */
    method CreateReview(env: Env, req: Request) returns (res: Result<nat>)
      requires Valid()
      modifies this
      ensures Valid() && (State(), res) == Create(old(State()), env, req)
    {
      CreateKeeps(State(), env, req);
      var admitted := Admit(Db(reviews, responses, log, nextId, clock, lag), env, req);
      if admitted.Err? {
        return Err(admitted.error);
      }
      var d := admitted.value;
      if Collides(reviews, d) {
        return Err(AfterRefusal(reviews, d));
      }
      var id := nextId;
      var r := NewRow(d, clock);
      reviews := reviews[id := r];
      nextId := id + 1;
      if d.status == Published {
        EmitReviewFact(id, r, PublishedFact, "");
      }
      res := Ok(id);
    }

    /** services.moderate_review, from the status comparison on. */
    method SaveStatus(id: nat, status: Status, reason: string)
      requires id in reviews
      modifies this
      ensures State() == SetStatus(old(State()), id, status, reason)
    {
      if reviews[id].status == status {
        return;
      }
      var r := reviews[id].(status := status, updatedAt := clock);
      reviews := reviews[id := r];
      EmitReviewFact(id, r, if status == Hidden then HiddenFact else PublishedFact, reason);
    }

    /** services.moderate_review */
    method ModerateReview(env: Env, actor: Actor, id: nat, action: string, reason: string) returns (res: Result<()>)
      requires Valid() && id in reviews
      modifies this
      ensures Valid() && (State(), res) == Moderate(old(State()), env, actor, id, action, reason)
    {
      ModerateKeeps(State(), env, actor, id, action, reason);
      if action != "hide" && action != "publish" {
        return Err(InvalidModerationAction);
      }
      if actor.Human? {
        var target := reviews[id].target;
        var policy := Lookup(env, target.ttype);
        if policy.None? {
          return Err(UnknownTargetType);
        }
        var allowed := CheckCanModerate(policy.value, actor.id, target);
        if allowed != Yes {
          return Err(if allowed == Raised then HostFailure else NotAllowedToModerate);
        }
      }
      SaveStatus(id, if action == "hide" then Hidden else Published, reason);
      res := Ok(());
    }

    /** actions.handle_moderation_completed */
    method OnModerationCompleted(ours: string, e: VerdictEvent)
      requires Valid()
      modifies this
      ensures Valid() && State() == HandleModerationCompleted(old(State()), ours, e)
    {
      ApplyKeeps(State(), VerdictOp(ours, e));
      if e.targetType != ours || e.key.NoKey? || e.decision == "" || e.key.NotAnId? {
        return;
      }
      var id := e.key.id;
      if id !in reviews {
        return;
      }
      var status := VerdictStatus(e.decision);
      if status.Ok? && status.value.Some? {
        SaveStatus(id, status.value.value, if e.reasonCode != "" then e.reasonCode else e.note);
      }
    }

    /** services.respond */
    method RespondTo(env: Env, actor: Actor, id: nat, body: string) returns (res: Result<()>)
      requires Valid() && id in reviews
      modifies this
      ensures Valid() && (State(), res) == Respond(old(State()), env, actor, id, body)
      ensures reviews == old(reviews) && log == old(log)
      ensures res.Ok? <==> MayReply(env, actor, old(reviews)[id]) && id !in old(responses)
      ensures responses == if res.Ok? then old(responses)[id := Response(actor.id, body)] else old(responses)
    {
      RespondOutcome(State(), env, actor, id, body);
      ApplyKeeps(State(), RespondOp(env, actor, id, body));
      if actor.System? {
        return Err(NotAllowedToRespond);
      }
      var r := reviews[id];
      var policy := Lookup(env, r.target.ttype);
      if policy.None? {
        return Err(UnknownTargetType);
      }
      if !policy.value.allowResponse {
        return Err(ResponseNotAllowed);
      }
      var allowed := CheckCanRespond(policy.value, actor.id, r.target, r.ownerKey);
      if allowed != Yes {
        return Err(if allowed == Raised then HostFailure else NotAllowedToRespond);
      }
      if id in responses {
        return Err(AlreadyResponded);
      }
      responses := responses[id := Response(actor.id, body)];
      res := Ok(());
    }

    /** Hidden facts for rows loaded before they were deleted, one at a time. */
    method AnnounceHidden(loaded: Table, ids: seq<nat>, reason: string)
      requires forall id :: id in ids ==> id in loaded
      modifies this`log, this`clock
      ensures State() == Announce(old(State()), loaded, ids, reason)
    {
      assert ids[..0] == [];
      for k := 0 to |ids|
        invariant reviews == old(reviews) && responses == old(responses) && nextId == old(nextId)
        invariant State() == Announce(old(State()), loaded, ids[..k], reason)
      {
        assert ids[..k + 1][..k] == ids[..k];
        EmitReviewFact(ids[k], loaded[ids[k]].(status := Hidden), HiddenFact, reason);
      }
      assert ids[..|ids|] == ids;
    }

    /** gdpr.ReviewsGDPRProvider.delete */
    method EraseUser(user: UserId)
      requires Valid()
      modifies this
      ensures Valid() && State() == Erase(old(State()), user)
      ensures !OwnsSomething(State(), user) && KeptByErasure(old(State()), State(), user)
    {
      ghost var erased := ErasedStore(State(), user);
      NewestFirstIds(reviews, nextId, VisibleBy(user));
      var loaded := reviews;
      var visible := NewestFirst(reviews, nextId, VisibleBy(user));
      var gone := IdsOf(reviews, AuthoredBy(user));
      reviews, responses := reviews - gone, responses - gone;
      responses := map id | id in responses && responses[id].author != user :: responses[id];
      AnnounceHidden(loaded, visible, "erased");
      assert State() == erased;
    }

    /** One pass of the duplicate loop: keep, unflag or delete and announce. */
    method FoldReview(env: Env, loaded: Table, id: nat, survivorTargets: set<Target>) returns (dropped: bool)
      requires id in loaded
      modifies this
      ensures State() == DropStep(old(State()), env, loaded, id, survivorTargets)
      ensures dropped == Doomed(env, survivorTargets, loaded[id])
    {
      var review := loaded[id];
      if review.target !in survivorTargets {
        return false;
      }
      if !OnePer(env, review.target.ttype) {
        if id in reviews {
          reviews := reviews[id := reviews[id].(uniquePerAuthor := false)];
        }
        return false;
      }
      reviews, responses := reviews - {id}, responses - {id};
      if Visible(review.status) {
        EmitReviewFact(id, review.(status := Hidden), HiddenFact, "merged_duplicate");
      }
      dropped := true;
    }

    /** actions._drop_duplicate_reviews */
    method DropDuplicateReviews(env: Env, from: UserId, into: UserId) returns (dropped: nat)
      requires Keyed(State())
      modifies this
      ensures var ids := NewestFirst(old(reviews), old(nextId), AuthoredBy(from));
              && (forall id :: id in ids ==> id in old(reviews))
              && State() == DropDuplicates(old(State()), env, old(reviews), ids, TargetsBy(old(reviews), into))
              && dropped == DroppedCount(env, old(reviews), ids, TargetsBy(old(reviews), into))
    {
      GuestIds(State(), from);
      var loaded := reviews;
      var guestReviews := NewestFirst(reviews, nextId, AuthoredBy(from));
      dropped := 0;
      if guestReviews == [] {
        return;
      }
      var survivorTargets := TargetsBy(reviews, into);
      ghost var db0 := State();
      DroppingNone(db0, env, loaded, guestReviews, survivorTargets);
      for k := 0 to |guestReviews|
        invariant Dropping(db0, env, loaded, guestReviews, k, survivorTargets, State(), dropped)
      {
        DroppingOne(db0, env, loaded, guestReviews, k, survivorTargets, State(), dropped);
        var gone := FoldReview(env, loaded, guestReviews[k], survivorTargets);
        if gone {
          dropped := dropped + 1;
        }
      }
      DroppingAll(db0, env, loaded, guestReviews, survivorTargets, State(), dropped);
    }

    /** The bulk author update, one row at a time: the unique constraint holds
        after every row. */
    method ReauthorReviews(from: UserId, into: UserId)
      requires from != into && OnePerAuthor(reviews) && SafeToMove(reviews, from, into)
      modifies this`reviews
      ensures reviews == Reauthor(old(reviews), old(reviews).Keys, from, into)
      ensures OnePerAuthor(reviews)
    {
      var pending := reviews.Keys;
      ghost var m := reviews;
      MoveNone(m, from, into);
      assert m.Keys - pending == {};
      while pending != {}
        invariant pending <= m.Keys
        invariant Moving(m, m.Keys - pending, from, into, reviews)
        decreases |pending|
      {
        var id :| id in pending;
        MoveOne(m, m.Keys - pending, id, from, into, reviews);
        OneLess(m.Keys, pending, id);
        if reviews[id].author == from {
          reviews := reviews[id := reviews[id].(author := into)];
        }
        pending := pending - {id};
      }
      assert m.Keys - {} == m.Keys;
    }

    /** The transfer: fold the duplicates, then move both author columns. */
    method Transfer(env: Env, from: UserId, into: UserId) returns (dropped: nat)
      requires Valid() && from != into
      modifies this
      ensures Valid() && State() == CarryOver(old(State()), env, from, into)
      ensures var ids := NewestFirst(old(reviews), old(nextId), AuthoredBy(from));
              && (forall id :: id in ids ==> id in old(reviews))
              && dropped == DroppedCount(env, old(reviews), ids, TargetsBy(old(reviews), into))
    {
      CarryOverKeeps(State(), env, from, into);
      FoldKeepsMovable(State(), env, from, into);
      dropped := DropDuplicateReviews(env, from, into);
      ReauthorReviews(from, into);
      responses := ReauthorResponses(responses, from, into);
    }

    /** actions.handle_user_merged */
    method OnUserMerged(env: Env, from: UserId, into: UserId, survivorExists: bool) returns (res: Result<nat>)
      requires Valid()
      modifies this
      ensures Valid() && (State(), res) == Merge(old(State()), env, from, into, survivorExists)
    {
      if from == "" || into == "" || from == into {
        return Ok(0);
      }
      if !OwnsSomething(Db(reviews, responses, log, nextId, clock, lag), from) {
        return Ok(0);
      }
      if !survivorExists {
        return Err(MergeTargetNotReady);
      }
      var dropped := Transfer(env, from, into);
      res := Ok(dropped);
    }

    /** One target of a backfill page: ask, count, and stamp unless it is a dry
        run. */
    method BackfillTarget(env: Env, t: Target, dryRun: bool, before: Stats) returns (stats: Stats)
      modifies this`reviews
      ensures stats == Visit(env, old(reviews), nextId, before, t)
      ensures reviews == if dryRun then old(reviews) else Stamp(env, {t}, old(reviews))
    {
      stats := before.(targets := before.targets + 1);
      var answer := Resolve(env, t);
      if answer.NoResolver? {
        stats := stats.(noResolver := stats.noResolver + 1);
        assert Stamp(env, {t}, reviews) == reviews;
        return;
      }
      if answer.Unresolved? {
        stats := stats.(unresolved := stats.unresolved + 1);
        assert Stamp(env, {t}, reviews) == reviews;
        return;
      }
      stats := stats.(stampedRows := stats.stampedRows + CountOf(reviews, nextId, UnstampedOf(t)),
                      stampedTargets := stats.stampedTargets + 1);
      if !dryRun {
        reviews := map id | id in reviews ::
          if UnstampedOf(t)(reviews[id]) then reviews[id].(ownerKey := answer.key) else reviews[id];
      }
    }

    /** The inner loop of the backfill, over one page. The targets that are not
        stamped go straight to the next one, past the limit test. */
    method BackfillPage(env: Env, page: seq<Target>, limit: Option<int>, dryRun: bool, before: Stats,
                        ghost c: Collation, ghost batch: nat, ghost m0: Table, ghost all: seq<Target>)
      returns (stats: Stats)
      requires Lawful(c) && Increasing(c, all) && batch >= 1
      requires page != [] && PageWalk(env, m0, nextId, all, batch, limit, dryRun, before.targets, page, 0, before, reviews)
      modifies this`reviews
      ensures PageLeft(env, m0, nextId, all, batch, limit, dryRun, before.targets, page, stats, reviews)
    {
      stats := before;
      var i := 0;
      while i < |page|
        invariant i <= |page|
        invariant PageWalk(env, m0, nextId, all, batch, limit, dryRun, before.targets, page, i, stats, reviews)
      {
        var t := page[i];
        ghost var stats0, reviews0 := stats, reviews;
        stats := BackfillTarget(env, t, dryRun, stats);
        VisitInPage(env, c, m0, nextId, all, batch, limit, dryRun, before.targets, page, i, stats0, reviews0, stats, reviews);
        i := i + 1;
        if !Resolves(env, t) {
          continue;
        }
        if LimitHit(limit, stats.targets) {
          return;
        }
      }
      PageWalked(env, m0, nextId, all, batch, limit, dryRun, before.targets, page, stats, reviews);
    }

    /** The outer loop: it reads the table again for every page, yet visits the
        targets, stops where and counts what is said of `Visited`, writing or
        not. */
    method WalkCandidates(env: Env, c: Collation, ttype: string, batch: nat, limit: Option<int>, dryRun: bool)
      returns (stats: Stats)
      requires Lawful(c) && batch >= 1
      modifies this`reviews
      ensures var visited := Visited(env, c, old(reviews), nextId, ttype, batch, limit);
              && stats == StatsOf(env, old(reviews), nextId, visited)
              && reviews == if dryRun then old(reviews) else Stamp(env, SetOfTargets(visited), old(reviews))
    {
      ghost var m0, all := reviews, Candidates(c, reviews, nextId, ttype);
      SortedIncreasing(c, reviews, nextId, Unstamped(c, ttype, None));
      stats := Stats(0, 0, 0, 0, 0);
      var last: Option<Target> := None;
      WalkBegins(env, m0, nextId, all, batch, limit, dryRun);
      while true
        invariant BetweenPages(env, m0, nextId, all, batch, limit, dryRun, stats, reviews, last)
        decreases |all| - stats.targets
      {
        var candidates := SortedTargets(c, reviews, nextId, Unstamped(c, ttype, last));
        var page := if |candidates| > batch then candidates[..batch] else candidates;
        NextPage(env, c, m0, nextId, ttype, all, batch, limit, dryRun, stats, reviews, last, page);
        if page == [] {
          break;
        }
        ghost var start := stats.targets;
        stats := BackfillPage(env, page, limit, dryRun, stats, c, batch, m0, all);
        last := Some(page[|page| - 1]);
        if LimitHit(limit, stats.targets) {
          break;
        }
        PageThenMore(env, m0, nextId, all, batch, limit, dryRun, start, page, stats, reviews);
      }
      WalkEnds(env, c, m0, nextId, ttype, batch, limit, all, dryRun, stats, reviews);
    }

    /** services.backfill_owner_keys */
    method BackfillOwnerKeys(env: Env, c: Collation, ttype: string, batchSize: Option<int>, limit: Option<int>, dryRun: bool)
      returns (stats: Stats)
      requires Valid() && Lawful(c)
      modifies this`reviews
      ensures Valid()
      ensures var visited := Visited(env, c, old(reviews), nextId, ttype, Batch(batchSize), limit);
              && stats == StatsOf(env, old(reviews), nextId, visited)
              && reviews == if dryRun then old(reviews) else Stamp(env, SetOfTargets(visited), old(reviews))
      ensures reviews.Keys == old(reviews).Keys
      ensures ttype != "" ==> forall id :: id in old(reviews) && old(reviews)[id].target.ttype != ttype ==>
                reviews[id] == old(reviews)[id]
    {
      StampKeeps(State(), env, SetOfTargets(Visited(env, c, reviews, nextId, ttype, Batch(batchSize), limit)));
      forall id | id in reviews && ttype != "" && reviews[id].target.ttype != ttype
        ensures Stamp(env, SetOfTargets(Visited(env, c, reviews, nextId, ttype, Batch(batchSize), limit)), reviews)[id] == reviews[id]
      {
        OtherTypesStay(env, c, reviews, nextId, ttype, Batch(batchSize), limit, id);
      }
      stats := WalkCandidates(env, c, ttype, Batch(batchSize), limit, dryRun);
    }

    /** A dry run and then the real one, with nobody else writing: the first
        announces exactly what the second does. */
    method PredictThenBackfill(env: Env, c: Collation, ttype: string, batchSize: Option<int>, limit: Option<int>)
      returns (predicted: Stats, actual: Stats)
      requires Valid() && Lawful(c)
      modifies this`reviews
      ensures Valid() && predicted == actual
    {
      predicted := BackfillOwnerKeys(env, c, ttype, batchSize, limit, true);
      actual := BackfillOwnerKeys(env, c, ttype, batchSize, limit, false);
    }
  }
}
