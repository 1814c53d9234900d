/** The key a fact is published under, type and key joined by a colon, and the
    key a host may file it under: when what is held there is right. */
module ProjectionKey {
  import opened Model
  import opened Rounding
  import opened Registry
  import opened Aggregates
  import opened Engine
  import opened Invariants
  import opened Runs

  function JoinedKey(t: Target): string {
    t.ttype + ":" + t.tkey
  }

  /** Two targets of these types are published under one key. */
  ghost predicate Meet(types: set<string>) {
    exists t: Target, u: Target :: t != u && t.ttype in types && u.ttype in types && JoinedKey(t) == JoinedKey(u)
  }

  /** One type, with the colon, begins another. */
  ghost predicate Nested(types: set<string>) {
    exists a, b :: a in types && b in types && a + ":" <= b
  }

  lemma ShorterTypeBegins(t: Target, u: Target)
    requires JoinedKey(t) == JoinedKey(u) && t != u && |t.ttype| <= |u.ttype|
    ensures t.ttype + ":" <= u.ttype
  {
    var s := JoinedKey(t);
    assert s[..|t.ttype|] == t.ttype && s[|t.ttype|] == ':' && s[|t.ttype| + 1..] == t.tkey;
    assert s[..|u.ttype|] == u.ttype && s[|u.ttype| + 1..] == u.tkey;
  }

  lemma NestedMeet(a: string, b: string)
    requires a + ":" <= b
    ensures var t, u := Target(a, b[|a| + 1..] + ":"), Target(b, "");
            t != u && JoinedKey(t) == JoinedKey(u)
  {
    assert b == a + ":" + b[|a| + 1..];
  }

  /** Two targets share a key if and only if some type followed by a colon begins
      another: colons alone do no harm. */
  lemma JoinedKeysMeetIff(types: set<string>)
    ensures Meet(types) <==> Nested(types)
  {
    if Meet(types) {
      var t: Target, u: Target :| t != u && t.ttype in types && u.ttype in types && JoinedKey(t) == JoinedKey(u);
      if |t.ttype| <= |u.ttype| { ShorterTypeBegins(t, u); } else { ShorterTypeBegins(u, t); }
    }
    if Nested(types) {
      var a, b :| a in types && b in types && a + ":" <= b;
      NestedMeet(a, b);
      assert Target(a, b[|a| + 1..] + ":").ttype in types && Target(b, "").ttype in types;
    }
  }

  /** What a host that files facts under their key holds for `key`. */
  ghost function LastUnder(log: seq<Fact>, key: string): Aggregate {
    if log == [] then Aggregate(0, 0)
    else if JoinedKey(log[|log| - 1].target) == key then log[|log| - 1].aggregate
    else LastUnder(log[..|log| - 1], key)
  }

  ghost predicate TypesWithin(log: seq<Fact>, types: set<string>) {
    forall i :: 0 <= i < |log| ==> log[i].target.ttype in types
  }

  lemma {:induction false} FiledApart(log: seq<Fact>, types: set<string>, t: Target)
    requires TypesWithin(log, types) && t.ttype in types && !Meet(types)
    ensures LastUnder(log, JoinedKey(t)) == LastAggregate(log, t)
  {
    if log != [] {
      var last := log[|log| - 1].target;
      if last != t {
        assert JoinedKey(last) != JoinedKey(t);
        FiledApart(log[..|log| - 1], types, t);
      }
    }
  }

  /** After any run over types none of which nests in another, what the host
      holds under a target's key is that target's live aggregate. */
  lemma FiledFactsAgreeWithRows(ops: seq<Op>, types: set<string>, t: Target)
    requires TypesWithin(Run(EMPTY_DB, ops).log, types) && t.ttype in types && !Nested(types)
    ensures var db := Run(EMPTY_DB, ops);
            LastUnder(db.log, JoinedKey(t)) == Live(db.reviews, db.nextId, t)
  {
    JoinedKeysMeetIff(types);
    FiledApart(Run(EMPTY_DB, ops).log, types, t);
    FactsAgreeWithRows(ops, t, 0);
  }

  // ----- and where types do nest -----

  /** A host with one open type. */
  function OneType(ttype: string): Env {
    Env(map[ttype := Policy(None, None, None, None, "post", false, true, false)], 1, 5)
  }

  function ReviewOf(t: Target, author: UserId): Op {
    CreateOp(OneType(t.ttype), Request(t, author, 5, ""))
  }

  lemma OneReviewRun(t: Target, author: UserId) returns (db: Db)
    ensures db == Run(EMPTY_DB, [ReviewOf(t, author)])
    ensures db.nextId == 1 && db.reviews.Keys == {0} && db.reviews[0].target == t && Visible(db.reviews[0].status)
    ensures |db.log| == 1 && db.log[0].target == t && db.log[0].aggregate == Live(db.reviews, 1, t)
  {
    assert [ReviewOf(t, author)][..0] == [];
    db := Apply(EMPTY_DB, ReviewOf(t, author));
  }

  /** With one visible row, its own target counts one and every other none. */
  lemma OneRowCounts(m: Table, t: Target, u: Target)
    requires m.Keys == {0} && m[0].target == t && Visible(m[0].status)
    ensures Live(m, 1, u).count == if u == t then 1 else 0
  {
    assert CountOf(m, 0, OfTarget(u)) == 0;
  }

  /** One review of a target of the longer type is enough: under the key it shares
      with a target of the shorter one, nobody reviewed, the host counts it. */
  lemma NestedTypesMislead(a: string, b: string, author: UserId) returns (t: Target)
    requires a + ":" <= b
    ensures t.ttype == a
    ensures var db := Run(EMPTY_DB, [ReviewOf(Target(b, ""), author)]);
            TypesWithin(db.log, {b}) && LastUnder(db.log, JoinedKey(t)) != Live(db.reviews, db.nextId, t)
  {
    t := Target(a, b[|a| + 1..] + ":");
    var u := Target(b, "");
    NestedMeet(a, b);
    var db := OneReviewRun(u, author);
    OneRowCounts(db.reviews, u, t);
    OneRowCounts(db.reviews, u, u);
  }

  /** The host that files facts under their key holds what is live after `ops`. */
  ghost predicate FiledRight(ops: seq<Op>, types: set<string>) {
    var db := Run(EMPTY_DB, ops);
    TypesWithin(db.log, types) ==>
      forall t: Target :: t.ttype in types ==> LastUnder(db.log, JoinedKey(t)) == Live(db.reviews, db.nextId, t)
  }

  /** Filing facts under the joined key is right after every run over some types
      if and only if none of them nests in another. */
  lemma JoinedKeyServesIff(types: set<string>)
    ensures (forall ops :: FiledRight(ops, types)) <==> !Nested(types)
  {
    if Nested(types) {
      var a, b :| a in types && b in types && a + ":" <= b;
      var t := NestedTypesMislead(a, b, "");
      assert !FiledRight([ReviewOf(Target(b, ""), "")], types);
    } else {
      forall ops
        ensures FiledRight(ops, types)
      {
        RunIsFiledRight(ops, types);
      }
    }
  }

  lemma RunIsFiledRight(ops: seq<Op>, types: set<string>)
    requires !Nested(types)
    ensures FiledRight(ops, types)
  {
    if TypesWithin(Run(EMPTY_DB, ops).log, types) {
      forall t: Target | t.ttype in types
        ensures LastUnder(Run(EMPTY_DB, ops).log, JoinedKey(t)) == Live(Run(EMPTY_DB, ops).reviews, Run(EMPTY_DB, ops).nextId, t)
      {
        FiledFactsAgreeWithRows(ops, types, t);
      }
    }
  }

  // ----- the key alone, as the documented host has it -----

  /** The last fact about any target of this key. */
  ghost function LastAbout(log: seq<Fact>, key: string): Option<Fact> {
    if log == [] then None
    else if log[|log| - 1].target.tkey == key then Some(log[|log| - 1])
    else LastAbout(log[..|log| - 1], key)
  }

  /** What the untyped keyed read answers for one key; nothing is zero and zero. */
  function Answer(m: Table, n: nat, key: string): Aggregate {
    var got := AggregatesByKeys(m, n, [key], "");
    if key in got then got[key] else Aggregate(0, 0)
  }

  /** Every visible review of the key is of this one target. */
  ghost predicate OnlyTarget(m: Table, t: Target) {
    forall id :: id in m && Visible(m[id].status) && m[id].target.tkey == t.tkey ==> m[id].target == t
  }

  function OfKey(key: string): Where {
    (r: Review) => Visible(r.status) && r.target.tkey == key
  }

  lemma AnswerIsTally(m: Table, n: nat, key: string)
    ensures Answer(m, n, key) == Summarize(TallyOf(m, n, OfKey(key)))
  {
    GroupedIsTally(m, n, KeyAxis, SetOf([key]), AnyRow, key);
    TallySameRows(m, n, Labelled(KeyAxis, {key}, AnyRow), OfKey(key));
  }

  lemma OtherTargetCounts(m: Table, n: nat, t: Target, id: nat)
    requires id < n && id in m && OfKey(t.tkey)(m[id]) && m[id].target != t
    ensures CountOf(m, n, OfTarget(t)) < CountOf(m, n, OfKey(t.tkey))
  {
    var others: Where := (r: Review) => Visible(r.status) && r.target.tkey == t.tkey && r.target != t;
    TallySplit(m, n, OfKey(t.tkey), OfTarget(t), others);
    TallyCountsRows(m, n, others);
    assert id in IdsWhere(m, n, others);
  }

  /** A single-target aggregate is the keyed answer if and only if nothing else
      visible has the key. */
  lemma LiveIsAnswerIff(m: Table, n: nat, t: Target)
    requires forall id :: id in m ==> id < n
    ensures Live(m, n, t) == Answer(m, n, t.tkey) <==> OnlyTarget(m, t)
  {
    AnswerIsTally(m, n, t.tkey);
    if OnlyTarget(m, t) {
      TallySameRows(m, n, OfTarget(t), OfKey(t.tkey));
    } else {
      var id :| id in m && Visible(m[id].status) && m[id].target.tkey == t.tkey && m[id].target != t;
      OtherTargetCounts(m, n, t, id);
    }
  }

  lemma {:induction false} LastAboutIsLast(log: seq<Fact>, key: string)
    ensures var last := LastAbout(log, key);
            && (last.Some? ==> last.value.target.tkey == key && LastAggregate(log, last.value.target) == last.value.aggregate)
            && (last.None? ==> forall t: Target :: t.tkey == key ==> LastAggregate(log, t) == Aggregate(0, 0))
  {
    if log != [] && log[|log| - 1].target.tkey != key { LastAboutIsLast(log[..|log| - 1], key); }
  }

  lemma VisibleCounts(m: Table, n: nat, id: nat)
    requires id in m && id < n
    ensures Visible(m[id].status) ==> Live(m, n, m[id].target).count > 0
  {
    TallyCountsRows(m, n, OfTarget(m[id].target));
    assert Visible(m[id].status) ==> id in IdsWhere(m, n, OfTarget(m[id].target));
  }

  lemma NothingLiveNothingAnswered(m: Table, n: nat, key: string)
    requires forall t: Target :: t.tkey == key ==> Live(m, n, t) == Aggregate(0, 0)
    requires forall id :: id in m ==> id < n
    ensures Answer(m, n, key) == Aggregate(0, 0)
  {
    forall id | id in m
      ensures !OfKey(key)(m[id])
    {
      VisibleCounts(m, n, id);
    }
    TallyCountsRows(m, n, OfKey(key));
    assert IdsWhere(m, n, OfKey(key)) == {};
    AnswerIsTally(m, n, key);
  }

  /** After any run, the last fact about a key carries what the untyped keyed read
      answers for it if and only if every visible review of the key is of that
      fact's target. Where there was no fact, the read answers nothing. */
  lemma KeyedHostAgreesIff(ops: seq<Op>, key: string)
    ensures var db := Run(EMPTY_DB, ops);
            match LastAbout(db.log, key)
            case None => Answer(db.reviews, db.nextId, key) == Aggregate(0, 0)
            case Some(f) => f.aggregate == Answer(db.reviews, db.nextId, key) <==> OnlyTarget(db.reviews, f.target)
  {
    var db := Run(EMPTY_DB, ops);
    EmptyInv();
    RunKeeps(EMPTY_DB, ops);
    LastAboutIsLast(db.log, key);
    match LastAbout(db.log, key)
    case None =>
      forall t: Target | t.tkey == key
        ensures Live(db.reviews, db.nextId, t) == Aggregate(0, 0)
      {
        assert LastAggregate(db.log, t) == Live(db.reviews, db.nextId, t);
      }
      NothingLiveNothingAnswered(db.reviews, db.nextId, key);
    case Some(f) =>
      assert LastAggregate(db.log, f.target) == Live(db.reviews, db.nextId, f.target);
      LiveIsAnswerIff(db.reviews, db.nextId, f.target);
  }
}
