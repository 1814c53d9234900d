/** What the aggregate reads answer, told from the columns of the rows: which rows
    count for which entry, and that the entry is their mean and their number. */
module Reads {
  import opened Model
  import opened Rounding
  import opened Aggregates
  import opened Ordering
  import opened Exporting

  // ----- the mean and the number of some rows -----

  /** The ratings of some rows, added up in any order. */
  ghost function Total(m: Table, ids: set<nat>): int
    requires ids <= m.Keys
  {
    if ids == {} then 0
    else
      var id :| id in ids;
      m[id].rating + Total(m, ids - {id})
  }

  lemma {:induction false} TotalTakes(m: Table, ids: set<nat>, x: nat)
    requires ids <= m.Keys && x in ids
    ensures Total(m, ids) == m[x].rating + Total(m, ids - {x})
    decreases |ids|
  {
    var y :| y in ids && Total(m, ids) == m[y].rating + Total(m, ids - {y});
    if x != y {
      TotalTakes(m, ids - {y}, x);
      TotalTakes(m, ids - {x}, y);
      assert ids - {y} - {x} == ids - {x} - {y};
    }
  }

  /** `a` is the three-decimal mean of these rows, ties to even, and their number;
      of no rows, zero and zero. */
  ghost predicate Summarizes(a: Aggregate, m: Table, ids: set<nat>)
    requires ids <= m.Keys
  {
    && a.count == |ids|
    && (ids == {} ==> a.avg == 0)
    && (ids != {} ==> IsNearestEven(1000 * Total(m, ids), |ids|, a.avg))
  }

  lemma {:induction false} SumIsTotal(m: Table, n: nat, w: Where)
    ensures SumOf(m, n, w) == Total(m, IdsWhere(m, n, w))
  {
    if n == 0 {
      assert IdsWhere(m, n, w) == {};
    } else {
      SumIsTotal(m, n - 1, w);
      OneIdMore(m, n - 1, w);
      if Picks(m, n - 1, w) {
        TotalTakes(m, IdsWhere(m, n, w), n - 1);
        assert IdsWhere(m, n, w) - {n - 1} == IdsWhere(m, n - 1, w);
      } else {
        assert IdsWhere(m, n, w) == IdsWhere(m, n - 1, w);
      }
    }
  }

  lemma TallySummarizes(m: Table, n: nat, w: Where)
    ensures Summarizes(Summarize(TallyOf(m, n, w)), m, IdsWhere(m, n, w))
  {
    TallyCountsRows(m, n, w);
    SumIsTotal(m, n, w);
    var ids := IdsWhere(m, n, w);
    if ids != {} {
      assert |ids| > 0;
      RoundIsNearestEven(1000 * Total(m, ids), |ids|);
    }
  }

  // ----- one target -----

  /** The published rows of a target. */
  ghost function RowsOfTarget(m: Table, n: nat, t: Target): set<nat> {
    set id | id in m && id < n && m[id].status == Published && m[id].target.ttype == t.ttype && m[id].target.tkey == t.tkey
  }

  lemma OfTargetRows(m: Table, n: nat, t: Target)
    ensures IdsWhere(m, n, OfTarget(t)) == RowsOfTarget(m, n, t)
  {
  }

  lemma LiveContract(m: Table, n: nat, t: Target)
    ensures Summarizes(Live(m, n, t), m, RowsOfTarget(m, n, t))
  {
    TallySummarizes(m, n, OfTarget(t));
    OfTargetRows(m, n, t);
  }

  // ----- many keys -----

  /** The published rows of a key, of one type or, asked without one, of all. */
  ghost function RowsOfKey(m: Table, n: nat, key: string, ttype: string): set<nat> {
    set id | id in m && id < n && m[id].status == Published && m[id].target.tkey == key
             && (ttype == "" || m[id].target.ttype == ttype)
  }

  lemma KeysContract(m: Table, n: nat, keys: seq<string>, ttype: string, key: string)
    ensures var got := AggregatesByKeys(m, n, keys, ttype);
            && (key in got <==> key in keys && RowsOfKey(m, n, key, ttype) != {})
            && (key in got ==> Summarizes(got[key], m, RowsOfKey(m, n, key, ttype)))
  {
    var w := Labelled(KeyAxis, {key}, Narrow(ttype));
    GroupedIsTally(m, n, KeyAxis, SetOf(keys), Narrow(ttype), key);
    TallySummarizes(m, n, w);
    assert IdsWhere(m, n, w) == RowsOfKey(m, n, key, ttype);
  }

  // ----- owners -----

  /** The published rows stamped with an owner. */
  ghost function RowsOfOwner(m: Table, n: nat, owner: string, ttype: string): set<nat> {
    set id | id in m && id < n && m[id].status == Published && m[id].ownerKey == owner
             && (ttype == "" || m[id].target.ttype == ttype)
  }

  lemma OwnersContract(m: Table, n: nat, owners: seq<string>, ttype: string, owner: string)
    ensures var got := AggregatesByOwnerKeys(m, n, owners, ttype);
            && (owner in got <==> owner in owners && owner != "" && RowsOfOwner(m, n, owner, ttype) != {})
            && (owner in got ==> Summarizes(got[owner], m, RowsOfOwner(m, n, owner, ttype)))
  {
    var w := Labelled(OwnerAxis, {owner}, Narrow(ttype));
    GroupedIsTally(m, n, OwnerAxis, SetOf(owners) - {""}, Narrow(ttype), owner);
    TallySummarizes(m, n, w);
    assert IdsWhere(m, n, w) == RowsOfOwner(m, n, owner, ttype);
  }

  // ----- a page of the export -----

  lemma RowContract(m: Table, n: nat, t: Target)
    requires RowsOfTarget(m, n, t) != {}
    ensures var row := RowOf(m, n, t);
            && row.target == t && Summarizes(row.aggregate, m, RowsOfTarget(m, n, t))
            && (forall id :: id in RowsOfTarget(m, n, t) ==> m[id].updatedAt <= row.seqNo)
            && (exists id :: id in RowsOfTarget(m, n, t) && m[id].updatedAt == row.seqNo)
  {
    LiveContract(m, n, t);
    LatestSaveIsNewest(m, n, OfTarget(t));
    forall id | id in RowsOfTarget(m, n, t)
      ensures Picks(m, id, OfTarget(t))
    {
    }
    if LatestSave(m, n, OfTarget(t)) == 0 {
      var id :| id in RowsOfTarget(m, n, t);
      assert m[id].updatedAt <= 0;
    } else {
      var id: nat :| id < n && Picks(m, id, OfTarget(t)) && m[id].updatedAt == LatestSave(m, n, OfTarget(t));
      assert id in RowsOfTarget(m, n, t);
    }
  }

  ghost function PublishedTargets(m: Table, n: nat): set<Target> {
    set id | id in m && id < n && m[id].status == Published :: m[id].target
  }

  lemma PublishedIsVisible(m: Table, n: nat, t: Target)
    ensures t in PublishedTargets(m, n) <==> VisibleIn(Snapshot(m, n), t)
    ensures t in PublishedTargets(m, n) <==> RowsOfTarget(m, n, t) != {}
  {
    if t in PublishedTargets(m, n) {
      var id :| id in m && id < n && m[id].status == Published && m[id].target == t;
      assert id in RowsOfTarget(m, n, t);
      assert VisibleIn(Snapshot(m, n), t);
    }
    if RowsOfTarget(m, n, t) != {} {
      var id :| id in RowsOfTarget(m, n, t);
      assert m[id].target in PublishedTargets(m, n);
    }
  }

  lemma {:induction false} DistinctTargets(c: Collation, s: seq<Target>)
    requires Lawful(c) && Increasing(c, s)
    ensures |set t | t in s| == |s|
  {
    if s == [] {
      assert (set t | t in s) == {};
    } else {
      var k := |s| - 1;
      DistinctTargets(c, s[..k]);
      forall i | 0 <= i < k
        ensures s[i] != s[k]
      {
        BeforeIsStrict(c, s[i], s[k]);
      }
      assert (set t | t in s) == (set t | t in s[..k]) + {s[k]};
    }
  }

  lemma TotalIsPublished(c: Collation, m: Table, n: nat)
    requires Lawful(c)
    ensures |SortedTargets(c, m, n, VisiblePast(c, None))| == |PublishedTargets(m, n)|
  {
    var all := SortedTargets(c, m, n, VisiblePast(c, None));
    SortedIncreasing(c, m, n, VisiblePast(c, None));
    DistinctTargets(c, all);
    forall t
      ensures t in all <==> t in PublishedTargets(m, n)
    {
      SortedMembers(c, m, n, VisiblePast(c, None), t);
      VisibleIsChosen(c, Snapshot(m, n), None, t);
      PublishedIsVisible(m, n, t);
    }
    assert (set t | t in all) == PublishedTargets(m, n);
  }

  /** The target a page starts past. */
  ghost function Past(codec: Codec, cursor: Option<string>): Option<Target> {
    match cursor
    case None => None
    case Some(text) => codec.decode(text)
  }

  /** A cursor that does not read is the one error. Otherwise: the targets with a
      published review past the cursor, in order, up to the limit, each with its
      row; the number of all of them on the first page and on no other; a cursor
      exactly when the page leaves some out. */
  lemma ExportContract(codec: Codec, c: Collation, m: Table, n: nat, cursor: Option<string>, limit: Option<int>)
    requires Lawful(c)
    ensures var res, last := Export(codec, c, m, n, cursor, limit), Past(codec, cursor);
            if cursor.Some? && last.None? then res == Err(InvalidExportCursor)
            else
              && res.Ok?
              && var p := res.value;
              && Increasing(c, TargetsOf(p.rows)) && |p.rows| <= Clamp(limit)
              && p.total == (if cursor.None? then Some(|PublishedTargets(m, n)|) else None)
              && (forall i :: 0 <= i < |p.rows| ==>
                    p.rows[i] == RowOf(m, n, p.rows[i].target) && Follows(c, m, n, last, p.rows[i].target))
              && (p.cursor.Some? ==> |p.rows| == Clamp(limit))
              && (p.cursor.None? <==> forall t :: Follows(c, m, n, last, t) ==> t in TargetsOf(p.rows))
  {
    var last := Past(codec, cursor);
    TotalIsPublished(c, m, n);
    if cursor.None? || last.Some? { PageContract(codec, c, m, n, last, Clamp(limit), Export(codec, c, m, n, cursor, limit).value); }
  }

  ghost predicate Follows(c: Collation, m: Table, n: nat, last: Option<Target>, t: Target) {
    t in PublishedTargets(m, n) && (last == None || Before(c, last.value, t))
  }

  lemma PageContract(codec: Codec, c: Collation, m: Table, n: nat, last: Option<Target>, limit: nat, p: Page)
    requires Lawful(c) && limit >= 1 && p == PageAfter(codec, c, m, n, last, limit, p.total)
    ensures Increasing(c, TargetsOf(p.rows)) && |p.rows| <= limit
    ensures forall i :: 0 <= i < |p.rows| ==>
              p.rows[i] == RowOf(m, n, p.rows[i].target) && Follows(c, m, n, last, p.rows[i].target)
    ensures p.cursor.Some? ==> |p.rows| == limit
    ensures p.cursor.None? <==> forall t :: Follows(c, m, n, last, t) ==> t in TargetsOf(p.rows)
  {
    var groups := SortedTargets(c, m, n, VisiblePast(c, last));
    SortedIncreasing(c, m, n, VisiblePast(c, last));
    forall t
      ensures t in groups <==> Follows(c, m, n, last, t)
    {
      SortedMembers(c, m, n, VisiblePast(c, last), t);
      VisibleIsChosen(c, Snapshot(m, n), last, t);
      PublishedIsVisible(m, n, t);
    }
    PageTargets(c, Snapshot(m, n), last, limit, p);
    forall i | 0 <= i < |p.rows|
      ensures p.rows[i] == RowOf(m, n, p.rows[i].target) && Follows(c, m, n, last, p.rows[i].target)
    {
      assert groups[i] in groups;
    }
    if p.cursor.Some? { LeftOut(c, groups, limit); }
  }

  /** The first group past the page is not on it. */
  lemma LeftOut(c: Collation, groups: seq<Target>, limit: nat)
    requires Lawful(c) && Increasing(c, groups) && |groups| > limit
    ensures groups[limit] in groups && groups[limit] !in groups[..limit]
  {
    forall i | 0 <= i < limit
      ensures groups[i] != groups[limit]
    {
      BeforeIsStrict(c, groups[i], groups[limit]);
    }
  }
}
