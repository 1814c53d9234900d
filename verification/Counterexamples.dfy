/** Runs from the empty store after which the code does not do what its own
    documentation leads to expect. Each is an instance of a condition that is
    proved elsewhere, for all inputs and in both directions. */
module Counterexamples {
  import opened Model
  import opened Registry
  import opened Aggregates
  import opened Ordering
  import opened Engine
  import opened Invariants
  import opened Merging
  import opened Runs
  import opened Interleaving
  import opened SelfReviewRule
  import opened Backfilling
  import opened Slicing
  import opened Verdicts
  import opened Convergence

  // ----- a small host -----

  /** Post-moderation, replies allowed, nothing else said. */
  const OPEN := Policy(None, None, None, None, "post", false, true, false)

  /** The same with one review per author. */
  const ONE_EACH := Policy(None, None, None, None, "post", true, true, false)

  /** The same with a resolver that names one owner for everything. */
  function Owned(owner: UserId): Policy {
    Policy(None, None, None, Some(Callable((k: string) => OwnerText(owner))), "post", false, true, false)
  }

  function Host(p: Policy): Env {
    Env(map["shop" := p], 1, 5)
  }

  function Shop(key: string): Target {
    Target("shop", key)
  }

  function Review5(p: Policy, key: string, author: UserId): Op {
    CreateOp(Host(p), Request(Shop(key), author, 5, ""))
  }

  function Row5(p: Policy, key: string, author: UserId, ownerKey: string, now: nat): Review {
    Review(Shop(key), ownerKey, author, 5, "", Published, p.onePerAuthor, now)
  }

  lemma RunOneMore(db: Db, ops: seq<Op>, op: Op)
    ensures Run(db, ops + [op]) == Apply(Run(db, ops), op)
  {
    assert (ops + [op])[..|ops|] == ops;
  }

  lemma RunOne(db: Db, a: Op)
    ensures Run(db, [a]) == Apply(db, a)
  {
    RunOneMore(db, [], a);
    assert [] + [a] == [a];
  }

  lemma RunTwo(db: Db, a: Op, b: Op)
    ensures Run(db, [a, b]) == Apply(Run(db, [a]), b)
  {
    RunOneMore(db, [a], b);
    assert [a] + [b] == [a, b];
  }

  lemma RunThree(db: Db, a: Op, b: Op, c: Op)
    ensures Run(db, [a, b, c]) == Apply(Run(db, [a, b]), c)
  {
    RunOneMore(db, [a, b], c);
    assert [a, b] + [c] == [a, b, c];
  }

  lemma RunThenMerge(a: Op, b: Op, env: Env, from: UserId, into: UserId)
    ensures Run(EMPTY_DB, [a, b, MergeOp(env, from, into, true)])
         == Merge(Run(EMPTY_DB, [a, b]), env, from, into, true).0
  {
    RunThree(EMPTY_DB, a, b, MergeOp(env, from, into, true));
  }

  /** A five-star review is accepted, whoever writes it. */
  lemma OpenAccepts(db: Db, key: string, author: UserId)
    ensures var db' := Apply(db, Review5(OPEN, key, author));
            && db'.nextId == db.nextId + 1 && db'.responses == db.responses
            && db'.reviews == db.reviews[db.nextId := Row5(OPEN, key, author, "", db.clock)]
  {
  }

  lemma OwnedAccepts(db: Db, key: string, author: UserId, owner: UserId)
    requires author != owner
    ensures var db' := Apply(db, Review5(Owned(owner), key, author));
            && db'.nextId == db.nextId + 1 && db'.responses == db.responses
            && db'.reviews == db.reviews[db.nextId := Row5(Owned(owner), key, author, owner, db.clock)]
  {
  }

  /** Row `id` is that author's review. */
  ghost predicate Holds(db: Db, id: nat, key: string, author: UserId, ownerKey: string) {
    && id in db.reviews && db.reviews[id].target == Shop(key) && db.reviews[id].author == author
    && db.reviews[id].ownerKey == ownerKey
  }

  lemma OneReview(key: string, author: UserId) returns (db: Db)
    ensures db == Run(EMPTY_DB, [Review5(OPEN, key, author)])
    ensures Keyed(db) && db.nextId == 1 && db.reviews.Keys == {0} && Holds(db, 0, key, author, "")
  {
    RunOne(EMPTY_DB, Review5(OPEN, key, author));
    OpenAccepts(EMPTY_DB, key, author);
    db := Apply(EMPTY_DB, Review5(OPEN, key, author));
  }

  lemma OneReviewMore(db: Db, key: string, author: UserId) returns (db': Db)
    requires Keyed(db)
    ensures db' == Apply(db, Review5(OPEN, key, author))
    ensures Keyed(db') && db'.nextId == db.nextId + 1 && db'.reviews.Keys == db.reviews.Keys + {db.nextId}
    ensures Holds(db', db.nextId, key, author, "")
    ensures forall id :: id in db.reviews ==> db'.reviews[id] == db.reviews[id]
  {
    OpenAccepts(db, key, author);
    db' := Apply(db, Review5(OPEN, key, author));
  }

  lemma TwoReviews(key1: string, key2: string, author: UserId) returns (db: Db)
    ensures db == Run(EMPTY_DB, [Review5(OPEN, key1, author), Review5(OPEN, key2, author)])
    ensures Keyed(db) && db.nextId == 2 && db.reviews.Keys == {0, 1}
    ensures Holds(db, 0, key1, author, "") && Holds(db, 1, key2, author, "")
  {
    var db1 := OneReview(key1, author);
    RunTwo(EMPTY_DB, Review5(OPEN, key1, author), Review5(OPEN, key2, author));
    db := OneReviewMore(db1, key2, author);
  }

  lemma ThreeReviews(key1: string, key2: string, key3: string, author: UserId) returns (db: Db)
    ensures db == Run(EMPTY_DB, [Review5(OPEN, key1, author), Review5(OPEN, key2, author), Review5(OPEN, key3, author)])
    ensures Keyed(db) && db.nextId == 3 && db.reviews.Keys == {0, 1, 2}
    ensures Holds(db, 0, key1, author, "") && Holds(db, 1, key2, author, "") && Holds(db, 2, key3, author, "")
  {
    var db2 := TwoReviews(key1, key2, author);
    RunThree(EMPTY_DB, Review5(OPEN, key1, author), Review5(OPEN, key2, author), Review5(OPEN, key3, author));
    db := OneReviewMore(db2, key3, author);
  }

  lemma OneOwnedReview(key: string, author: UserId, owner: UserId) returns (db: Db)
    requires author != owner
    ensures db == Run(EMPTY_DB, [Review5(Owned(owner), key, author)])
    ensures Keyed(db) && db.nextId == 1 && db.reviews.Keys == {0} && Holds(db, 0, key, author, owner)
  {
    RunOne(EMPTY_DB, Review5(Owned(owner), key, author));
    OwnedAccepts(EMPTY_DB, key, author, owner);
    db := Apply(EMPTY_DB, Review5(Owned(owner), key, author));
  }

  // ----- a merge can leave two reviews where the policy allows one -----

  /** The guest reviewed a shop twice while the policy was off; the policy is on
      when the account is merged, and the survivor ends with both. */
  lemma MergeCanLeaveTwo(key: string, guest: UserId, member: UserId, env: Env)
    requires guest != "" && member != "" && guest != member && OnePer(env, "shop")
    ensures var a, merge := Review5(OPEN, key, guest), MergeOp(env, guest, member, true);
            |Authored(Run(EMPTY_DB, [a, a, merge]).reviews, member, Shop(key))| == 2
  {
    var a, merge := Review5(OPEN, key, guest), MergeOp(env, guest, member, true);
    var db := TwoReviews(key, key, guest);
    RunThenMerge(a, a, env, guest, member);
    TwoMove(db, env, guest, member, Shop(key));
  }

  lemma TwoMove(db: Db, env: Env, from: UserId, into: UserId, t: Target)
    requires Keyed(db) && from != "" && into != "" && from != into
    requires db.reviews.Keys == {0, 1}
    requires forall id :: id in db.reviews ==> db.reviews[id].target == t && db.reviews[id].author == from
    ensures |Authored(Merge(db, env, from, into, true).0.reviews, into, t)| == 2
  {
    assert Authored(db.reviews, from, t) == {0, 1};
    assert Authored(db.reviews, into, t) == {};
    assert OwnsSomething(db, from) by { assert 0 in db.reviews; }
    MergeFoldsPerTarget(db, env, from, into, t);
  }

  // ----- a backfill can visit more targets than its limit -----

  /** Three shops whose type has no resolver, in pages of two: a limit of one
      target visits two, whatever the database's order. */
  lemma BackfillCanOverrun(c: Collation, guest: UserId)
    requires Lawful(c)
    ensures var db := Run(EMPTY_DB, [Review5(OPEN, "1", guest), Review5(OPEN, "2", guest), Review5(OPEN, "3", guest)]);
            |Visited(Host(OPEN), c, db.reviews, db.nextId, "", 2, Some(1))| == 2
  {
    var db := ThreeReviews("1", "2", "3", guest);
    var all := Candidates(c, db.reviews, db.nextId, "");
    IsCandidate(c, db.reviews, db.nextId, "", 0);
    IsCandidate(c, db.reviews, db.nextId, "", 1);
    MoreThanOne(all, Shop("1"), Shop("2"));
    OpenResolvesNothing(all[0]);
    LimitIsOverrunByLessThanAPage(Host(OPEN), all, 2, 1);
  }

  lemma OpenResolvesNothing(t: Target)
    ensures !Resolves(Host(OPEN), t)
  {
  }

  lemma MoreThanOne(all: seq<Target>, t: Target, u: Target)
    requires t in all && u in all && t != u
    ensures |all| > 1
  {
  }

  // ----- repeated slices can stand still -----

  /** The same with a resolver that knows the owner of one shop only. */
  function OwnedAt(key: string, owner: UserId): Policy {
    Policy(None, None, None, Some(Callable((k: string) => if k == key then OwnerText(owner) else OwnerNothing)),
           "post", false, true, false)
  }

  lemma OwnedAtResolves(key: string, owner: UserId, at: string)
    requires owner != ""
    ensures Resolves(Host(OwnedAt(key, owner)), Shop(at)) <==> at == key
  {
  }

  /** Two shops, and only the one that sorts second has an owner: in slices of one
      target it is never stamped, however many there are. */
  lemma SlicesCanStandStill(c: Collation, key1: string, key2: string, author: UserId, owner: UserId, k: nat)
    requires Lawful(c) && c.keyLess(key1, key2) && owner != ""
    ensures var db := Run(EMPTY_DB, [Review5(OPEN, key1, author), Review5(OPEN, key2, author)]);
            var env := Host(OwnedAt(key2, owner));
            Slices(env, c, db.reviews, db.nextId, "", 1, 1, k) != StampEvery(env, "", db.reviews)
  {
    var env := Host(OwnedAt(key2, owner));
    var db := TwoReviews(key1, key2, author);
    var all := Candidates(c, db.reviews, db.nextId, "");
    IsCandidate(c, db.reviews, db.nextId, "", 0);
    IsCandidate(c, db.reviews, db.nextId, "", 1);
    OwnedAtResolves(key2, owner, key1);
    OwnedAtResolves(key2, owner, key2);
    OneIsAhead(env, c, all, Shop(key1), Shop(key2));
    SlicesFinishIff(env, c, db.reviews, db.nextId, "", 1, 1);
  }

  lemma OneIsAhead(env: Env, c: Collation, all: seq<Target>, t: Target, u: Target)
    requires Lawful(c) && Before(c, t, u) && t in all && u in all && !Resolves(env, t) && Resolves(env, u)
    ensures !WithinReach(env, c, all, 1, 1)
  {
    assert t in Ahead(env, c, all, u);
    SubsetIsNoLarger({t}, Ahead(env, c, all, u));
  }

  // ----- an unregistered type is not counted as unresolved -----

  /** A review of a type the host has since let go of: the backfill counts its
      target under no_resolver. */
  lemma LetGoIsNoResolver(c: Collation, key: string, author: UserId)
    ensures var db := Run(EMPTY_DB, [Review5(OPEN, key, author)]);
            var env := Env(map[], 1, 5);
            var st := StatsOf(env, db.reviews, db.nextId, Visited(env, c, db.reviews, db.nextId, "", Batch(None), None));
            st.targets == 1 && st.noResolver == 1 && st.unresolved == 0
  {
    var env := Env(map[], 1, 5);
    var db := OneReview(key, author);
    var all := Candidates(c, db.reviews, db.nextId, "");
    OnlyCandidate(c, db, key);
    NoLimitNoStop(env, all, Batch(None), None, 0);
    assert all[..|all|] == all;
    OneUnregistered(env, db.reviews, db.nextId, Shop(key));
  }

  lemma OnlyCandidate(c: Collation, db: Db, key: string)
    requires db.nextId == 1 && db.reviews.Keys == {0}
    requires db.reviews[0].target == Shop(key) && db.reviews[0].ownerKey == ""
    ensures Candidates(c, db.reviews, db.nextId, "") == [Shop(key)]
  {
    assert SortedTargets(c, db.reviews, 0, Unstamped(c, "", None)) == [];
  }

  lemma OneUnregistered(env: Env, m: Table, n: nat, t: Target)
    requires t.ttype !in env.types
    ensures var st := StatsOf(env, m, n, [t]); st.targets == 1 && st.noResolver == 1 && st.unresolved == 0
  {
    assert [t][..0] == [];
  }

  // ----- a member can end up with a review of what the member owns -----

  /** By a merge: the guest reviewed the member's shop before signing in. */
  lemma MergeCanBreakSelfReview(key: string, guest: UserId, member: UserId)
    requires guest != "" && member != "" && guest != member
    ensures var a, merge := Review5(Owned(member), key, guest), MergeOp(Host(Owned(member)), guest, member, true);
            NoSelfReview(Run(EMPTY_DB, [a]).reviews) && !NoSelfReview(Run(EMPTY_DB, [a, merge]).reviews)
  {
    var a, merge := Review5(Owned(member), key, guest), MergeOp(Host(Owned(member)), guest, member, true);
    var db := OneOwnedReview(key, guest, member);
    RunTwo(EMPTY_DB, a, merge);
    OwnedMoves(db, Host(Owned(member)), guest, member);
  }

  /** Where several reviews per author are fine, a guest's review of what the
      survivor owns always moves. */
  lemma OwnedMoves(db: Db, env: Env, from: UserId, into: UserId)
    requires Keyed(db) && NoSelfReview(db.reviews) && from != "" && into != "" && from != into
    requires 0 in db.reviews && db.reviews[0].author == from && db.reviews[0].ownerKey == into
    requires !OnePer(env, db.reviews[0].target.ttype)
    ensures !NoSelfReview(Merge(db, env, from, into, true).0.reviews)
  {
    assert OwnsSomething(db, from) by { assert 0 in db.reviews; }
    MergeRule(db, env, from, into);
    assert !Dropped(env, db.reviews, from, into, db.reviews[0]);
  }

  /** By a backfill: the review was written before the type had a resolver. */
  lemma BackfillCanBreakSelfReview(key: string, member: UserId)
    requires member != ""
    ensures var a, stamp := Review5(OPEN, key, member), BackfillOp(Host(Owned(member)), {Shop(key)});
            NoSelfReview(Run(EMPTY_DB, [a]).reviews) && !NoSelfReview(Run(EMPTY_DB, [a, stamp]).reviews)
  {
    var a, stamp := Review5(OPEN, key, member), BackfillOp(Host(Owned(member)), {Shop(key)});
    var db := OneReview(key, member);
    RunTwo(EMPTY_DB, a, stamp);
    OwnedResolves(Shop(key), member);
    StampRule(db, Host(Owned(member)), {Shop(key)});
    assert db.reviews[0].target in {Shop(key)};
  }

  lemma OwnedResolves(t: Target, owner: UserId)
    requires t.ttype == "shop" && owner != ""
    ensures Resolve(Host(Owned(owner)), t) == Owner(owner)
  {
  }

  // ----- a refused create can come out as the database's own error -----

  lemma DoOneMore(w: World, steps: seq<Step>, s: Step)
    ensures DoAll(w, steps + [s]) == Do(DoAll(w, steps), s)
  {
    assert (steps + [s])[..|steps|] == steps;
  }

  const IDLE := World(EMPTY_DB, map[])

  /** Two calls for the same review, both past the existence check. */
  function BothChecked(env: Env, req: Request): seq<Step> {
    [Start(0, env, req)] + [Start(1, env, req)] + [Check(0)] + [Check(1)]
  }

  lemma BothAreChecked(env: Env, req: Request) returns (w: World)
    requires Admit(EMPTY_DB, env, req).Ok?
    ensures w == DoAll(IDLE, BothChecked(env, req))
    ensures w == World(EMPTY_DB, map[0 := Checked(Admit(EMPTY_DB, env, req).value), 1 := Checked(Admit(EMPTY_DB, env, req).value)])
  {
    var s1, s2 := [Start(0, env, req)], [Start(0, env, req)] + [Start(1, env, req)];
    DoOneMore(IDLE, [], Start(0, env, req));
    assert [] + s1 == s1;
    DoOneMore(IDLE, s1, Start(1, env, req));
    DoOneMore(IDLE, s2, Check(0));
    DoOneMore(IDLE, s2 + [Check(0)], Check(1));
    w := DoAll(IDLE, BothChecked(env, req));
  }

  /** Then both insert: the constraint refuses the second. */
  function BothPut(env: Env, req: Request): seq<Step> {
    BothChecked(env, req) + [Put(0)] + [Put(1)]
  }

  lemma SecondIsRefused(env: Env, req: Request) returns (w: World)
    requires Admit(EMPTY_DB, env, req).Ok? && OnePer(env, req.target.ttype)
    ensures w == DoAll(IDLE, BothPut(env, req)) && Keyed(w.db)
    ensures 1 in w.procs && w.procs[1].Refused? && w.procs[1].draft.author == req.author
  {
    var checked := BothAreChecked(env, req);
    var d := Admit(EMPTY_DB, env, req).value;
    DoOneMore(IDLE, BothChecked(env, req), Put(0));
    DoOneMore(IDLE, BothChecked(env, req) + [Put(0)], Put(1));
    AdmittedIsFlagged(EMPTY_DB, env, req, req.target.ttype);
    AdmittedIsNotHidden(EMPTY_DB, env, req);
    w := PutBoth(d);
  }

  lemma PutBoth(d: Draft) returns (w: World)
    requires d.uniquePerAuthor
    ensures w == Do(Do(World(EMPTY_DB, map[0 := Checked(d), 1 := Checked(d)]), Put(0)), Put(1))
    ensures Keyed(w.db) && 1 in w.procs && w.procs[1] == Refused(d)
  {
    InsertedCollides(d);
    var first := Do(World(EMPTY_DB, map[0 := Checked(d), 1 := Checked(d)]), Put(0));
    assert first.db == Insert(EMPTY_DB, d) && first.procs[1] == Checked(d);
    w := Do(first, Put(1));
  }

  lemma InsertedCollides(d: Draft)
    requires d.uniquePerAuthor
    ensures !Collides(EMPTY_DB.reviews, d) && Collides(Insert(EMPTY_DB, d).reviews, d)
    ensures Keyed(Insert(EMPTY_DB, d))
  {
    var m := Insert(EMPTY_DB, d).reviews;
    assert m == map[0 := NewRow(d, 0)];
    assert 0 in m && m[0].uniquePerAuthor && m[0].target == d.target && m[0].author == d.author;
  }

  lemma OneEachAccepts(key: string, author: UserId)
    ensures Admit(EMPTY_DB, Host(ONE_EACH), Request(Shop(key), author, 5, "")).Ok?
    ensures OnePer(Host(ONE_EACH), "shop")
  {
  }

  /** Two creates race; the author is erased, or merged away, before the refused
      one looks again. It answers neither with a review nor with DuplicateReview. */
  lemma RefusalCanSurface(key: string, author: UserId, into: UserId, erased: bool)
    requires author != "" && into != "" && into != author
    ensures var env, req := Host(ONE_EACH), Request(Shop(key), author, 5, "");
            var leaves := Other(if erased then DeletedOp(author) else MergeOp(env, author, into, true));
            var end := DoAll(IDLE, BothPut(env, req) + [leaves] + [LookAgain(1)]);
            1 in end.procs && end.procs[1] == Answered(Err(IntegrityError))
  {
    var env, req := Host(ONE_EACH), Request(Shop(key), author, 5, "");
    OneEachAccepts(key, author);
    var w := SecondIsRefused(env, req);
    var leaves := Other(if erased then DeletedOp(author) else MergeOp(env, author, into, true));
    DoOneMore(IDLE, BothPut(env, req), leaves);
    DoOneMore(IDLE, BothPut(env, req) + [leaves], LookAgain(1));
    if erased {
      ErasureInBetweenSurfacesRefusal(w, 1);
    } else {
      MergeInBetweenSurfacesRefusal(w, 1, env, into);
    }
  }

  // ----- a redelivered verdict can take effect again -----

  /** Rejected, then approved, then the rejection once more: the review is hidden
      again, by a verdict that was already superseded. */
  lemma StaleVerdictReturns(key: string, author: UserId, ours: string)
    ensures var rejected := VerdictOp(ours, VerdictEvent(ours, Names(0), "rejected", "", ""));
            var approved := VerdictOp(ours, VerdictEvent(ours, Names(0), "approved", "", ""));
            var later := Run(EMPTY_DB, [Review5(OPEN, key, author), rejected, approved]);
            && 0 in later.reviews && Visible(later.reviews[0].status)
            && 0 in Apply(later, rejected).reviews && Apply(later, rejected).reviews[0].status == Hidden
  {
    var no := VerdictEvent(ours, Names(0), "rejected", "", "");
    var yes := VerdictEvent(ours, Names(0), "approved", "", "");
    var db := OneReview(key, author);
    RunTwo(EMPTY_DB, Review5(OPEN, key, author), VerdictOp(ours, no));
    RunThree(EMPTY_DB, Review5(OPEN, key, author), VerdictOp(ours, no), VerdictOp(ours, yes));
    VerdictVocabulary(db, ours, no);
    VerdictVocabulary(HandleModerationCompleted(db, ours, no), ours, yes);
    VerdictVocabulary(HandleModerationCompleted(HandleModerationCompleted(db, ours, no), ours, yes), ours, no);
  }

  // ----- a snapshot does not mend an entry that outranks it -----

  function Hide(id: nat): Op {
    ModerateOp(Host(OPEN), System, id, "hide", "")
  }

  /** Both reviews counted, at a time after the first was saved. */
  ghost predicate CountsBoth(db: Db, key: string, f: Fact) {
    && f.target == Shop(key) && f.aggregate.count == 2 && 0 in db.reviews && db.reviews[0].updatedAt < f.time
  }

  lemma TwoAreCounted(key: string, a: UserId, b: UserId) returns (db: Db)
    ensures db == Run(EMPTY_DB, [Review5(OPEN, key, a), Review5(OPEN, key, b)])
    ensures Holds(db, 0, key, a, "") && Holds(db, 1, key, b, "") && db.nextId == 2
    ensures Visible(db.reviews[0].status) && Visible(db.reviews[1].status)
    ensures |db.log| == 2 && CountsBoth(db, key, db.log[1])
  {
    RunOne(EMPTY_DB, Review5(OPEN, key, a));
    RunTwo(EMPTY_DB, Review5(OPEN, key, a), Review5(OPEN, key, b));
    var db1 := Apply(EMPTY_DB, Review5(OPEN, key, a));
    OpenAccepts(EMPTY_DB, key, a);
    OpenAnnounces(EMPTY_DB, key, a);
    OpenAccepts(db1, key, b);
    OpenAnnounces(db1, key, b);
    db := Apply(db1, Review5(OPEN, key, b));
    CountsTwo(db.reviews, OfTarget(Shop(key)));
  }

  lemma OpenAnnounces(db: Db, key: string, author: UserId)
    ensures var db' := Apply(db, Review5(OPEN, key, author));
            && |db'.log| == |db.log| + 1 && db'.clock > db.clock
            && var f := db'.log[|db.log|];
            && f.target == Shop(key) && f.time >= db.clock
            && f.aggregate.count == CountOf(db'.reviews, db'.nextId, OfTarget(Shop(key)))
  {
  }

  lemma CountsTwo(m: Table, w: Where)
    requires 0 in m && 1 in m && w(m[0]) && w(m[1])
    ensures CountOf(m, 2, w) == 2
  {
    assert CountOf(m, 1, w) == 1 by { assert CountOf(m, 0, w) == 0; }
  }

  lemma CountsOne(m: Table, w: Where)
    requires 0 in m && 1 in m && w(m[0]) && !w(m[1])
    ensures CountOf(m, 2, w) == 1 && LatestSave(m, 2, w) == m[0].updatedAt
  {
    assert CountOf(m, 1, w) == 1 && LatestSave(m, 1, w) == m[0].updatedAt by {
      assert CountOf(m, 0, w) == 0 && LatestSave(m, 0, w) == 0;
    }
  }

  /** The second review is hidden. The snapshot row is then ranked by the save of
      the first, below the fact that counted both. */
  lemma HiddenIsOutranked(db: Db, key: string, f: Fact)
    requires CountsBoth(db, key, f) && db.nextId == 2 && 1 in db.reviews
    requires Visible(db.reviews[0].status) && Visible(db.reviews[1].status)
    requires db.reviews[0].target == Shop(key)
    ensures var db' := Apply(db, Hide(1));
            && Live(db'.reviews, db'.nextId, Shop(key)).count == 1
            && SnapshotRow(db', Shop(key)).seqNo < f.time
  {
    CountsOne(Apply(db, Hide(1)).reviews, OfTarget(Shop(key)));
  }

  lemma LogIsKept(db: Db, id: nat, i: nat)
    requires i < |db.log|
    ensures i < |Apply(db, Hide(id)).log| && Apply(db, Hide(id)).log[i] == db.log[i]
  {
    ApplyForward(db, Hide(id));
  }

  /** Two reviews, the second hidden, and the fact that said so lost on the way. A
      host that kept its entry and is given the whole snapshot goes on counting
      both: the one row it is given does not outrank the entry. */
  lemma LostFactOutlivesSnapshot(key: string, a: UserId, b: UserId, onTie: bool)
    ensures var db := Run(EMPTY_DB, [Review5(OPEN, key, a), Review5(OPEN, key, b), Hide(1)]);
            && |db.log| > 1
            && var kept := Held(db.log[1].aggregate, db.log[1].time);
            !Shows(Consume(kept, [SnapshotRow(db, Shop(key))], Shop(key), onTie), Live(db.reviews, db.nextId, Shop(key)))
  {
    var before := TwoAreCounted(key, a, b);
    RunThree(EMPTY_DB, Review5(OPEN, key, a), Review5(OPEN, key, b), Hide(1));
    EmptyInv();
    RunKeeps(EMPTY_DB, [Review5(OPEN, key, a), Review5(OPEN, key, b), Hide(1)]);
    HiddenIsOutranked(before, key, before.log[1]);
    LogIsKept(before, 1, 1);
    KeptEntryStays(Apply(before, Hide(1)), Shop(key), Held(before.log[1].aggregate, before.log[1].time), onTie);
  }

  /** A wrong entry newer than the snapshot row of a store at rest stays wrong. */
  lemma KeptEntryStays(db: Db, t: Target, kept: Projection, onTie: bool)
    requires Inv(db) && Live(db.reviews, db.nextId, t).count > 0
    requires kept.Held? && kept.aggregate != Live(db.reviews, db.nextId, t) && SnapshotRow(db, t).seqNo < kept.seqNo
    ensures !Shows(Consume(kept, [SnapshotRow(db, t)], t, onTie), Live(db.reviews, db.nextId, t))
  {
    var none: seq<Op> := [];
    assert none[..0] == none && Run(db, none) == db;
    assert SnapshotAt(Run(db, none[..0]), SnapshotRow(db, t));
    assert SnapshotRow(db, t) in [SnapshotRow(db, t)];
    RebuildConverges(kept, db, none, [SnapshotRow(db, t)], t, onTie);
  }
}
