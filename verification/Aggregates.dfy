/** The module-owned aggregates: one target, many keys, and everything an owner
    owns. */
module Aggregates {
  import opened Model
  import opened Rounding

  /** The column a grouped read groups by. */
  datatype Axis = KeyAxis | OwnerAxis | TypeAxis

  function Label(axis: Axis, r: Review): string {
    match axis
    case KeyAxis => r.target.tkey
    case OwnerAxis => r.ownerKey
    case TypeAxis => r.target.ttype
  }

  /** The second condition a read may carry. */
  datatype Only = AnyRow | OnlyType(ttype: string) | OnlyKey(tkey: string)

  predicate Passes(only: Only, r: Review) {
    match only
    case AnyRow => true
    case OnlyType(ty) => r.target.ttype == ty
    case OnlyKey(k) => r.target.tkey == k
  }

  /** A WHERE clause. */
  type Where = Review -> bool

  function OfTarget(t: Target): Where {
    (r: Review) => Visible(r.status) && r.target == t
  }

  function Labelled(axis: Axis, labels: set<string>, only: Only): Where {
    (r: Review) => Visible(r.status) && Label(axis, r) in labels && Passes(only, r)
  }

  ghost predicate AddsUp(whole: Tally, left: Tally, right: Tally) {
    whole.sum == left.sum + right.sum && whole.count == left.count + right.count
  }

  /** Whether row `id` exists and is selected. */
  predicate Picks(m: Table, id: nat, w: Where) {
    id in m && w(m[id])
  }

  function SumOf(m: Table, n: nat, w: Where): int {
    if n == 0 then 0 else SumOf(m, n - 1, w) + (if Picks(m, n - 1, w) then m[n - 1].rating else 0)
  }

  function CountOf(m: Table, n: nat, w: Where): nat {
    if n == 0 then 0 else CountOf(m, n - 1, w) + (if Picks(m, n - 1, w) then 1 else 0)
  }

  /** Sum and count over the rows selected with an id below `n`. */
  function TallyOf(m: Table, n: nat, w: Where): Tally {
    Tally(SumOf(m, n, w), CountOf(m, n, w))
  }

  function Live(m: Table, n: nat, t: Target): Aggregate {
    Summarize(TallyOf(m, n, OfTarget(t)))
  }

  /** The newest save among the rows selected; 0 when there is none. */
  function LatestSave(m: Table, n: nat, w: Where): nat {
    if n == 0 then 0
    else
      var earlier := LatestSave(m, n - 1, w);
      if Picks(m, n - 1, w) && m[n - 1].updatedAt > earlier then m[n - 1].updatedAt else earlier
  }

  /** It is the newest: no selected row was saved later, and one was saved then. */
  lemma {:induction false} LatestSaveIsNewest(m: Table, n: nat, w: Where)
    ensures forall id: nat :: id < n && Picks(m, id, w) ==> m[id].updatedAt <= LatestSave(m, n, w)
    ensures LatestSave(m, n, w) > 0 ==>
              exists id: nat :: id < n && Picks(m, id, w) && m[id].updatedAt == LatestSave(m, n, w)
  {
    if n > 0 {
      LatestSaveIsNewest(m, n - 1, w);
      var id: nat := n - 1;
      assert Picks(m, id, w) || !Picks(m, id, w);
    }
  }

  // ----- how a tally changes -----

  /** Row `id` adds the same to both tallies. */
  ghost predicate SamePick(m: Table, m': Table, id: nat, w: Where, w': Where) {
    && Picks(m, id, w) == Picks(m', id, w')
    && (Picks(m, id, w) ==> m[id].rating == m'[id].rating)
  }

  lemma {:induction false} TallySame(m: Table, m': Table, n: nat, w: Where, w': Where)
    requires forall id: nat :: id < n ==> SamePick(m, m', id, w, w')
    ensures TallyOf(m, n, w) == TallyOf(m', n, w')
  {
    if n > 0 {
      TallySame(m, m', n - 1, w, w');
      assert SamePick(m, m', n - 1, w, w');
    }
  }

  /** Two conditions that pick the same rows have the same tally. */
  lemma TallySameRows(m: Table, n: nat, w: Where, w': Where)
    requires forall id :: id in m ==> w(m[id]) == w'(m[id])
    ensures TallyOf(m, n, w) == TallyOf(m, n, w')
  {
    TallySame(m, m, n, w, w');
  }

  /** A disjoint split of the rows splits the tally. */
  lemma {:induction false} TallySplit(m: Table, n: nat, whole: Where, left: Where, right: Where)
    requires forall id :: id in m ==> whole(m[id]) == (left(m[id]) || right(m[id]))
    requires forall id :: id in m ==> !(left(m[id]) && right(m[id]))
    ensures AddsUp(TallyOf(m, n, whole), TallyOf(m, n, left), TallyOf(m, n, right))
  {
    if n > 0 { TallySplit(m, n - 1, whole, left, right); }
  }

  ghost function IdsWhere(m: Table, n: nat, w: Where): set<nat> {
    set id | id in m && id < n && w(m[id])
  }

  /** The count is the number of rows selected. */
  lemma {:induction false} TallyCountsRows(m: Table, n: nat, w: Where)
    ensures TallyOf(m, n, w).count == |IdsWhere(m, n, w)|
  {
    if n == 0 {
      assert IdsWhere(m, n, w) == {};
    } else {
      TallyCountsRows(m, n - 1, w);
      OneIdMore(m, n - 1, w);
    }
  }

  lemma OneIdMore(m: Table, n: nat, w: Where)
    ensures IdsWhere(m, n + 1, w) == IdsWhere(m, n, w) + (if Picks(m, n, w) then {n} else {})
    ensures n !in IdsWhere(m, n, w)
  {
  }

  /** The sum lies where the ratings do. */
  lemma {:induction false} TallySumBounds(m: Table, n: nat, w: Where, lo: int, hi: int)
    requires forall id :: id in m ==> lo <= m[id].rating <= hi
    ensures lo * TallyOf(m, n, w).count <= TallyOf(m, n, w).sum <= hi * TallyOf(m, n, w).count
  {
    if n > 0 {
      TallySumBounds(m, n - 1, w, lo, hi);
      var c := TallyOf(m, n - 1, w).count;
      assert lo * (c + 1) == lo * c + lo && hi * (c + 1) == hi * c + hi;
    }
  }

  /** A target nobody visibly reviewed reads as zero and zero, and with ratings
      of at least one that is the only way to read a zero mean. */
  lemma LiveIsHonest(m: Table, n: nat, t: Target, lo: int, hi: int)
    requires forall id :: id in m ==> lo <= m[id].rating <= hi
    ensures var a := Live(m, n, t);
            && a.count == |IdsWhere(m, n, OfTarget(t))|
            && (a.count == 0 ==> a.avg == 0)
            && (a.count > 0 ==> 1000 * lo <= a.avg <= 1000 * hi)
            && (lo >= 1 ==> (a.avg == 0 <==> a.count == 0))
  {
    TallyCountsRows(m, n, OfTarget(t));
    TallySumBounds(m, n, OfTarget(t), lo, hi);
    var tally := TallyOf(m, n, OfTarget(t));
    if tally.count > 0 { MeanIsHonest(tally, lo, hi); }
  }

  // ----- the batch reads -----

  /** One GROUP BY query: per group, the tally of the rows kept. A group with
      no such row is absent. */
  function Grouped<K(==)>(m: Table, n: nat, keep: Where, colOf: Review -> K): map<K, Tally> {
    if n == 0 then map[]
    else
      var g := Grouped(m, n - 1, keep, colOf);
      if Picks(m, n - 1, keep) then AddTo(g, colOf(m[n - 1]), m[n - 1].rating) else g
  }

  function AddTo<K(==)>(g: map<K, Tally>, key: K, rating: int): map<K, Tally> {
    g[key := Tally(GroupOf(g, key).sum + rating, GroupOf(g, key).count + 1)]
  }

  function GroupOf<K(==)>(g: map<K, Tally>, key: K): Tally {
    if key in g then g[key] else Tally(0, 0)
  }

  function By(axis: Axis): Review -> string {
    (r: Review) => Label(axis, r)
  }

  function SetOf(keys: seq<string>): set<string> {
    set k | k in keys
  }

  function Narrow(ttype: string): Only {
    if ttype == "" then AnyRow else OnlyType(ttype)
  }

  function AggregatesByKeys(m: Table, n: nat, keys: seq<string>, ttype: string): map<string, Aggregate> {
    if keys == [] then map[]
    else
      var g := Grouped(m, n, Labelled(KeyAxis, SetOf(keys), Narrow(ttype)), By(KeyAxis));
      map k | k in g :: Summarize(g[k])
  }

  /** Empty owner keys are dropped from the request and from the rows. */
  function AggregatesByOwnerKeys(m: Table, n: nat, owners: seq<string>, ttype: string): map<string, Aggregate> {
    var wanted := SetOf(owners) - {""};
    if wanted == {} then map[]
    else
      var g := Grouped(m, n, Labelled(OwnerAxis, wanted, Narrow(ttype)), By(OwnerAxis));
      map k | k in g :: Summarize(g[k])
  }

  /** A grouped read has exactly the asked-for labels with a row, each with its
      own tally. */
  lemma GroupedIsTally(m: Table, n: nat, axis: Axis, labels: set<string>, only: Only, k: string)
    ensures var g := Grouped(m, n, Labelled(axis, labels, only), By(axis));
            var tally := TallyOf(m, n, Labelled(axis, {k}, only));
            && (k in g <==> k in labels && tally.count > 0)
            && (k in g ==> g[k] == tally)
  {
    var keep := Labelled(axis, labels, only);
    GroupedKeys(m, n, keep, By(axis), k);
    if k in labels {
      GroupIsTally(m, n, keep, By(axis), k, Labelled(axis, {k}, only));
    }
  }

  lemma {:induction false} GroupedKeys<K>(m: Table, n: nat, keep: Where, colOf: Review -> K, k: K)
    ensures var g := Grouped(m, n, keep, colOf);
            && (k in g <==> GroupOf(g, k).count > 0)
            && (k in g ==> exists r :: keep(r) && colOf(r) == k)
  {
    if n > 0 { GroupedKeys(m, n - 1, keep, colOf, k); }
  }

  lemma AddToGroup<K>(g: map<K, Tally>, key: K, rating: int, k: K)
    ensures key == k ==> AddsUp(GroupOf(AddTo(g, key, rating), k), GroupOf(g, k), Tally(rating, 1))
    ensures key != k ==> GroupOf(AddTo(g, key, rating), k) == GroupOf(g, k)
  {
  }

  lemma {:induction false} GroupIsTally<K>(m: Table, n: nat, keep: Where, colOf: Review -> K, k: K, mine: Where)
    requires forall id :: id in m ==> mine(m[id]) == (keep(m[id]) && colOf(m[id]) == k)
    ensures GroupOf(Grouped(m, n, keep, colOf), k) == TallyOf(m, n, mine)
  {
    if n > 0 {
      GroupIsTally(m, n - 1, keep, colOf, k, mine);
      if Picks(m, n - 1, keep) {
        AddToGroup(Grouped(m, n - 1, keep, colOf), colOf(m[n - 1]), m[n - 1].rating, k);
      }
    }
  }

  /** The typed keyed read has a key exactly when somebody visibly reviewed that
      target, and then its entry is the single-target aggregate. */
  lemma TypedKeysAgree(m: Table, n: nat, keys: seq<string>, ttype: string, k: string)
    requires ttype != ""
    ensures var got := AggregatesByKeys(m, n, keys, ttype);
            && (k in got <==> k in keys && Live(m, n, Target(ttype, k)).count > 0)
            && (k in got ==> got[k] == Live(m, n, Target(ttype, k)))
  {
    GroupedIsTally(m, n, KeyAxis, SetOf(keys), OnlyType(ttype), k);
    TallySameRows(m, n, Labelled(KeyAxis, {k}, OnlyType(ttype)), OfTarget(Target(ttype, k)));
  }

  // ----- conservation -----

  ghost function PickOne(labels: set<string>): (k: string)
    requires labels != {}
    ensures k in labels
  {
    var k :| k in labels;
    k
  }

  /** The tallies of single labels, added up over a set of labels. */
  ghost function SumOver(m: Table, n: nat, axis: Axis, labels: set<string>, only: Only): Tally {
    if labels == {} then Tally(0, 0)
    else
      var k := PickOne(labels);
      var first, rest := TallyOf(m, n, Labelled(axis, {k}, only)), SumOver(m, n, axis, labels - {k}, only);
      Tally(first.sum + rest.sum, first.count + rest.count)
  }

  lemma {:induction false} LabelsAddUp(m: Table, n: nat, axis: Axis, labels: set<string>, only: Only)
    ensures SumOver(m, n, axis, labels, only) == TallyOf(m, n, Labelled(axis, labels, only))
    decreases |labels|
  {
    if labels == {} {
      TallyOfNothing(m, n, axis, only);
    } else {
      var k := PickOne(labels);
      LabelsAddUp(m, n, axis, labels - {k}, only);
      TakeLabel(m, n, axis, labels, only, k);
    }
  }

  lemma TakeLabel(m: Table, n: nat, axis: Axis, labels: set<string>, only: Only, k: string)
    requires k in labels
    ensures AddsUp(TallyOf(m, n, Labelled(axis, labels, only)),
                   TallyOf(m, n, Labelled(axis, {k}, only)), TallyOf(m, n, Labelled(axis, labels - {k}, only)))
  {
    TallySplit(m, n, Labelled(axis, labels, only), Labelled(axis, {k}, only), Labelled(axis, labels - {k}, only));
  }

  lemma {:induction false} TallyOfNothing(m: Table, n: nat, axis: Axis, only: Only)
    ensures TallyOf(m, n, Labelled(axis, {}, only)) == Tally(0, 0)
  {
    if n > 0 {
      TallyOfNothing(m, n - 1, axis, only);
    }
  }

  /** The untyped keyed read spans every type sharing the key: its entry
      summarizes the total of the single-target tallies over all types. */
  lemma UntypedKeysSpanTypes(m: Table, n: nat, keys: seq<string>, k: string, types: set<string>)
    requires forall id :: id in m ==> m[id].target.ttype in types
    ensures var got := AggregatesByKeys(m, n, keys, "");
            var total := SumOver(m, n, TypeAxis, types, OnlyKey(k));
            && (k in got <==> k in keys && total.count > 0)
            && (k in got ==> got[k] == Summarize(total))
    ensures forall ty :: TallyOf(m, n, Labelled(TypeAxis, {ty}, OnlyKey(k)))
                         == TallyOf(m, n, OfTarget(Target(ty, k)))
  {
    GroupedIsTally(m, n, KeyAxis, SetOf(keys), AnyRow, k);
    LabelsAddUp(m, n, TypeAxis, types, OnlyKey(k));
    TallySameRows(m, n, Labelled(KeyAxis, {k}, AnyRow), Labelled(TypeAxis, types, OnlyKey(k)));
    forall ty
      ensures TallyOf(m, n, Labelled(TypeAxis, {ty}, OnlyKey(k))) == TallyOf(m, n, OfTarget(Target(ty, k)))
    {
      TallySameRows(m, n, Labelled(TypeAxis, {ty}, OnlyKey(k)), OfTarget(Target(ty, k)));
    }
  }

  /** The owner read answers exactly the asked-for, non-empty owners with a
      visible review, each with the summary of its own tally. */
  lemma OwnersAgree(m: Table, n: nat, owners: seq<string>, ttype: string, o: string)
    ensures var got := AggregatesByOwnerKeys(m, n, owners, ttype);
            var tally := TallyOf(m, n, Labelled(OwnerAxis, {o}, Narrow(ttype)));
            && (o in got <==> o in owners && o != "" && tally.count > 0)
            && (o in got ==> got[o] == Summarize(tally))
  {
    GroupedIsTally(m, n, OwnerAxis, SetOf(owners) - {""}, Narrow(ttype), o);
  }

  /** Owners plus the unstamped rows, and types, are two ways of adding up the
      same visible rows. */
  lemma OwnersAndUnstampedAreEverything(m: Table, n: nat, owners: set<string>, types: set<string>)
    requires "" !in owners
    requires forall id :: id in m ==> m[id].ownerKey in owners + {""}
    requires forall id :: id in m ==> m[id].target.ttype in types
    ensures AddsUp(TallyOf(m, n, PublishedRows()), SumOver(m, n, OwnerAxis, owners, AnyRow), TallyOf(m, n, PublishedUnstamped()))
    ensures SumOver(m, n, TypeAxis, types, AnyRow) == TallyOf(m, n, PublishedRows())
  {
    LabelsAddUp(m, n, OwnerAxis, owners, AnyRow);
    LabelsAddUp(m, n, TypeAxis, types, AnyRow);
    TallySameRows(m, n, Labelled(TypeAxis, types, AnyRow), PublishedRows());
    AllVisibleSplit(m, n, PublishedRows(), owners);
    TallySameRows(m, n, Labelled(OwnerAxis, {""}, AnyRow), PublishedUnstamped());
  }

  function PublishedRows(): Where {
    (r: Review) => r.status == Published
  }

  function PublishedUnstamped(): Where {
    (r: Review) => r.status == Published && r.ownerKey == ""
  }

  lemma AllVisibleSplit(m: Table, n: nat, all: Where, owners: set<string>)
    requires "" !in owners
    requires forall id :: id in m ==> m[id].ownerKey in owners + {""}
    requires forall id :: id in m ==> all(m[id]) == Visible(m[id].status)
    ensures AddsUp(TallyOf(m, n, all),
                   TallyOf(m, n, Labelled(OwnerAxis, owners, AnyRow)), TallyOf(m, n, Labelled(OwnerAxis, {""}, AnyRow)))
  {
    TallySplit(m, n, all, Labelled(OwnerAxis, owners, AnyRow), Labelled(OwnerAxis, {""}, AnyRow));
  }
}
