/** The cursor-paged snapshot of every target's aggregate. */
module Exporting {
  import opened Model
  import opened Rounding
  import opened Aggregates
  import opened Ordering
  import opened Cursor

  const EXPORT_DEFAULT_LIMIT := 500
  const EXPORT_MAX_LIMIT := 2000

  datatype ExportRow = ExportRow(target: Target, aggregate: Aggregate, seqNo: nat)

  datatype Page = Page(rows: seq<ExportRow>, cursor: Option<string>, total: Option<nat>)

  /** How a target becomes a continuation token and back. */
  datatype Codec = Codec(encode: Target -> string, decode: string -> Option<Target>)

  ghost predicate RoundTrips(codec: Codec) {
    forall t :: codec.decode(codec.encode(t)) == Some(t)
  }

  const JSON_CODEC := Codec((t: Target) => EncodeCursor(t), (s: string) => DecodeCursor(s))

  lemma JsonCursorsRoundTrip()
    ensures RoundTrips(JSON_CODEC)
  {
    forall t { CursorRoundTrip(t); }
  }

  /** No limit and zero mean the default; the rest is clamped. */
  function Clamp(limit: Option<int>): nat
    ensures 1 <= Clamp(limit) <= EXPORT_MAX_LIMIT
    ensures limit.Some? && 1 <= limit.value <= EXPORT_MAX_LIMIT ==> Clamp(limit) == limit.value
    ensures limit.Some? && limit.value > EXPORT_MAX_LIMIT ==> Clamp(limit) == EXPORT_MAX_LIMIT
    ensures limit.Some? && limit.value < 0 ==> Clamp(limit) == 1
    ensures limit == None || limit == Some(0) ==> Clamp(limit) == EXPORT_DEFAULT_LIMIT
  {
    var asked := if limit == None || limit == Some(0) then EXPORT_DEFAULT_LIMIT else limit.value;
    if asked < 1 then 1 else if asked > EXPORT_MAX_LIMIT then EXPORT_MAX_LIMIT else asked
  }

  /** Visible rows past the cursor's target. */
  function VisiblePast(c: Collation, last: Option<Target>): Where {
    (r: Review) => Visible(r.status) && (last == None || Before(c, last.value, r.target))
  }

  function RowOf(m: Table, n: nat, t: Target): ExportRow {
    ExportRow(t, Live(m, n, t), LatestSave(m, n, OfTarget(t)))
  }

  function RowsOf(m: Table, n: nat, ts: seq<Target>): seq<ExportRow> {
    seq(|ts|, i requires 0 <= i < |ts| => RowOf(m, n, ts[i]))
  }

  /** One page past `last`: up to `limit` groups, and a cursor when there is one
      more. */
  function PageAfter(codec: Codec, c: Collation, m: Table, n: nat, last: Option<Target>, limit: nat, total: Option<nat>): Page
    requires limit >= 1
  {
    var groups := SortedTargets(c, m, n, VisiblePast(c, last));
    if |groups| > limit
    then Page(RowsOf(m, n, groups[..limit]), Some(codec.encode(groups[limit - 1])), total)
    else Page(RowsOf(m, n, groups), None, total)
  }

  function Export(codec: Codec, c: Collation, m: Table, n: nat, cursor: Option<string>, limit: Option<int>): Result<Page> {
    match cursor
    case None =>
      Ok(PageAfter(codec, c, m, n, None, Clamp(limit), Some(|SortedTargets(c, m, n, VisiblePast(c, None))|)))
    case Some(text) =>
      match codec.decode(text)
      case None => Err(InvalidExportCursor)
      case Some(last) => Ok(PageAfter(codec, c, m, n, Some(last), Clamp(limit), None))
  }

  // ----- following the cursors -----

  /** The store as one page's read saw it. */
  datatype Snapshot = Snapshot(m: Table, n: nat)

  function CursorBefore(pages: seq<Page>, k: nat): Option<string>
    requires k <= |pages|
  {
    if k == 0 then None else pages[k - 1].cursor
  }

  /** A client following the cursors: page k is what the export answered over
      store k, and only the last page may lack a cursor. Nothing relates the
      stores to each other. */
  ghost predicate Walk(codec: Codec, c: Collation, stores: seq<Snapshot>, limit: Option<int>, pages: seq<Page>) {
    && |stores| == |pages|
    && (forall k :: 0 <= k < |pages| ==> AnsweredAt(codec, c, stores, limit, pages, k))
    && (forall k :: 0 <= k < |pages| - 1 ==> pages[k].cursor.Some?)
  }

  ghost predicate AnsweredAt(codec: Codec, c: Collation, stores: seq<Snapshot>, limit: Option<int>, pages: seq<Page>, k: nat)
    requires |stores| == |pages| && k < |pages|
  {
    Export(codec, c, stores[k].m, stores[k].n, CursorBefore(pages, k), limit) == Ok(pages[k])
  }

  function TargetsOf(rows: seq<ExportRow>): seq<Target> {
    seq(|rows|, i requires 0 <= i < |rows| => rows[i].target)
  }

  /** All rows of a walk, in the order they arrived. */
  function AllTargets(pages: seq<Page>): seq<Target> {
    if pages == [] then [] else AllTargets(pages[..|pages| - 1]) + TargetsOf(pages[|pages| - 1].rows)
  }

  ghost predicate Finished(pages: seq<Page>) {
    pages != [] && pages[|pages| - 1].cursor.None?
  }

  // ----- one page -----

  /** What a page is, read off the store and the target it starts past. */
  ghost predicate IsPage(c: Collation, s: Snapshot, last: Option<Target>, limit: nat, p: Page) {
    var groups := SortedTargets(c, s.m, s.n, VisiblePast(c, last));
    && limit >= 1
    && p.rows == RowsOf(s.m, s.n, if |groups| > limit then groups[..limit] else groups)
    && (p.cursor.Some? <==> |groups| > limit)
  }

  /** The last row of the last page, when it promises more. */
  ghost function Bound(pages: seq<Page>): Option<Target> {
    if pages == [] || pages[|pages| - 1].cursor.None? || pages[|pages| - 1].rows == [] then None
    else Some(pages[|pages| - 1].rows[|pages[|pages| - 1].rows| - 1].target)
  }

  /** A walk with the cursor texts taken away: page k starts past the last row
      of the page before it. */
  ghost predicate Paged(c: Collation, stores: seq<Snapshot>, limit: nat, pages: seq<Page>) {
    && |stores| == |pages|
    && (forall k :: 0 <= k < |pages| ==> PagedAt(c, stores, limit, pages, k))
    && (forall k :: 0 <= k < |pages| - 1 ==> pages[k].cursor.Some?)
  }

  ghost predicate PagedAt(c: Collation, stores: seq<Snapshot>, limit: nat, pages: seq<Page>, k: nat)
    requires |stores| == |pages| && k < |pages|
  {
    IsPage(c, stores[k], Bound(pages[..k]), limit, pages[k])
  }

  function LastRow(p: Page): Target
    requires p.rows != []
  {
    p.rows[|p.rows| - 1].target
  }

  /** The cursor of a page comes back as the page's last target. */
  ghost predicate NamesLastRow(codec: Codec, p: Page) {
    p.cursor.Some? ==> p.rows != [] && codec.decode(p.cursor.value) == Some(LastRow(p))
  }

  lemma CursorNamesLastRow(codec: Codec, c: Collation, s: Snapshot, cursor: Option<string>, limit: Option<int>, last: Option<Target>)
    requires RoundTrips(codec)
    requires last == if cursor.None? then None else codec.decode(cursor.value)
    requires cursor.Some? ==> last.Some?
    ensures Export(codec, c, s.m, s.n, cursor, limit).Ok?
    ensures var p := Export(codec, c, s.m, s.n, cursor, limit).value;
            IsPage(c, s, last, Clamp(limit), p) && NamesLastRow(codec, p)
  {
    var groups := SortedTargets(c, s.m, s.n, VisiblePast(c, last));
    if |groups| > Clamp(limit) {
      assert codec.decode(codec.encode(groups[Clamp(limit) - 1])) == Some(groups[Clamp(limit) - 1]);
    }
  }

  /** Where the next page will start. */
  lemma BoundAt(pages: seq<Page>, k: nat)
    requires k < |pages|
    ensures Bound(pages[..k + 1]) ==
              if pages[k].cursor.None? || pages[k].rows == [] then None else Some(LastRow(pages[k]))
  {
  }

  lemma {:induction false} WalkPage(codec: Codec, c: Collation, stores: seq<Snapshot>, limit: Option<int>, pages: seq<Page>, k: nat)
    requires RoundTrips(codec) && Walk(codec, c, stores, limit, pages) && k < |pages|
    ensures IsPage(c, stores[k], Bound(pages[..k]), Clamp(limit), pages[k])
    ensures NamesLastRow(codec, pages[k])
  {
    if k > 0 {
      WalkPage(codec, c, stores, limit, pages, k - 1);
      CursorReadsBound(codec, pages, k);
    }
    assert AnsweredAt(codec, c, stores, limit, pages, k);
    CursorNamesLastRow(codec, c, stores[k], CursorBefore(pages, k), limit, Bound(pages[..k]));
  }

  /** The cursor in hand before page k stands for the last row read. */
  lemma CursorReadsBound(codec: Codec, pages: seq<Page>, k: nat)
    requires 0 < k <= |pages| && pages[k - 1].cursor.Some? && NamesLastRow(codec, pages[k - 1])
    ensures CursorBefore(pages, k).Some? && Bound(pages[..k]).Some?
    ensures codec.decode(CursorBefore(pages, k).value) == Bound(pages[..k])
  {
    BoundAt(pages, k - 1);
  }

  lemma WalkIsPaged(codec: Codec, c: Collation, stores: seq<Snapshot>, limit: Option<int>, pages: seq<Page>)
    requires RoundTrips(codec) && Walk(codec, c, stores, limit, pages)
    ensures Paged(c, stores, Clamp(limit), pages)
  {
    forall k | 0 <= k < |pages|
      ensures PagedAt(c, stores, Clamp(limit), pages, k)
    {
      WalkPage(codec, c, stores, limit, pages, k);
    }
  }

  lemma PageTargets(c: Collation, s: Snapshot, last: Option<Target>, limit: nat, p: Page)
    requires IsPage(c, s, last, limit, p)
    ensures var groups := SortedTargets(c, s.m, s.n, VisiblePast(c, last));
            TargetsOf(p.rows) == groups[..if |groups| > limit then limit else |groups|]
  {
  }

  // ----- concatenated pages -----

  lemma OnePageMore(pages: seq<Page>, k: nat)
    requires k < |pages|
    ensures AllTargets(pages[..k + 1]) == AllTargets(pages[..k]) + TargetsOf(pages[k].rows)
  {
    assert pages[..k + 1][..k] == pages[..k];
  }

  lemma NoPages(pages: seq<Page>)
    ensures AllTargets(pages[..0]) == [] && Bound(pages[..0]) == None
  {
  }

  lemma Concatenate(c: Collation, a: seq<Target>, b: seq<Target>, bound: Option<Target>)
    requires Lawful(c) && Increasing(c, a) && Increasing(c, b)
    requires a != [] ==> bound == Some(a[|a| - 1])
    requires bound.Some? ==> AllAfter(c, bound.value, b)
    ensures Increasing(c, a + b)
  {
    forall i, j | 0 <= i < |a| && 0 <= j < |b|
      ensures Before(c, a[i], b[j])
    {
      if i < |a| - 1 { BeforeIsTransitive(c, a[i], a[|a| - 1], b[j]); }
    }
  }

  lemma PageIncreases(c: Collation, s: Snapshot, last: Option<Target>, limit: nat, p: Page)
    requires Lawful(c) && IsPage(c, s, last, limit, p)
    ensures Increasing(c, TargetsOf(p.rows))
    ensures last.Some? ==> AllAfter(c, last.value, TargetsOf(p.rows))
    ensures p.cursor.Some? ==> |p.rows| == limit
  {
    var w := VisiblePast(c, last);
    var groups := SortedTargets(c, s.m, s.n, w);
    SortedIncreasing(c, s.m, s.n, w);
    PageTargets(c, s, last, limit, p);
    forall i | 0 <= i < |groups|
      ensures Chosen(s.m, s.n, w, groups[i])
    {
      SortedMembers(c, s.m, s.n, w, groups[i]);
    }
  }

  /** The rows so far end at the target the next page starts past. */
  ghost predicate EndsAt(a: seq<Target>, bound: Option<Target>) {
    if a == [] then bound == None else bound == Some(a[|a| - 1])
  }

  /** The page's rows go up, start past `last`, and are some if more follow. */
  ghost predicate Fits(c: Collation, last: Option<Target>, p: Page) {
    && Increasing(c, TargetsOf(p.rows))
    && (last.Some? ==> AllAfter(c, last.value, TargetsOf(p.rows)))
    && (p.cursor.Some? ==> p.rows != [])
  }

  lemma AddPage(c: Collation, a: seq<Target>, last: Option<Target>, p: Page)
    requires Lawful(c) && Fits(c, last, p)
    requires Increasing(c, a) && EndsAt(a, last)
    ensures Increasing(c, a + TargetsOf(p.rows))
    ensures p.cursor.Some? ==> p.rows != [] && EndsAt(a + TargetsOf(p.rows), Some(LastRow(p)))
  {
    Concatenate(c, a, TargetsOf(p.rows), last);
  }

  lemma PagedHere(c: Collation, stores: seq<Snapshot>, limit: nat, pages: seq<Page>, k: nat)
    requires Paged(c, stores, limit, pages) && k < |pages|
    ensures IsPage(c, stores[k], Bound(pages[..k]), limit, pages[k])
    ensures k == 0 || pages[k - 1].cursor.Some?
  {
    assert PagedAt(c, stores, limit, pages, k);
  }

  /** The first `k` pages go up, and end where page k will start. */
  ghost predicate GoesUp(c: Collation, pages: seq<Page>, k: nat)
    requires k <= |pages|
  {
    && Increasing(c, AllTargets(pages[..k]))
    && (k == 0 || pages[k - 1].cursor.Some? ==> EndsAt(AllTargets(pages[..k]), Bound(pages[..k])))
  }

  lemma FitsHere(c: Collation, stores: seq<Snapshot>, limit: nat, pages: seq<Page>, k: nat)
    requires Lawful(c) && Paged(c, stores, limit, pages) && 0 < k <= |pages|
    ensures Fits(c, Bound(pages[..k - 1]), pages[k - 1])
    ensures k == 1 || pages[k - 2].cursor.Some?
  {
    PagedHere(c, stores, limit, pages, k - 1);
    PageIncreases(c, stores[k - 1], Bound(pages[..k - 1]), limit, pages[k - 1]);
  }

  lemma AddPageAt(c: Collation, pages: seq<Page>, k: nat)
    requires Lawful(c) && 0 < k <= |pages| && Fits(c, Bound(pages[..k - 1]), pages[k - 1])
    requires GoesUp(c, pages, k - 1) && (k == 1 || pages[k - 2].cursor.Some?)
    ensures GoesUp(c, pages, k)
  {
    AddPage(c, AllTargets(pages[..k - 1]), Bound(pages[..k - 1]), pages[k - 1]);
    OnePageMore(pages, k - 1);
    BoundAt(pages, k - 1);
  }

  lemma {:induction false} WalkGoesUp(c: Collation, stores: seq<Snapshot>, limit: nat, pages: seq<Page>, k: nat)
    requires Lawful(c) && Paged(c, stores, limit, pages) && k <= |pages|
    ensures GoesUp(c, pages, k)
  {
    if k == 0 {
      NoPages(pages);
    } else {
      WalkGoesUp(c, stores, limit, pages, k - 1);
      FitsHere(c, stores, limit, pages, k);
      AddPageAt(c, pages, k);
    }
  }

  /** However the store changes between reads, the rows arrive in strictly
      increasing order, so none repeats. */
  lemma WalkIncreases(c: Collation, stores: seq<Snapshot>, limit: nat, pages: seq<Page>, k: nat)
    requires Lawful(c) && Paged(c, stores, limit, pages) && k <= |pages|
    ensures Increasing(c, AllTargets(pages[..k]))
    ensures k == 0 || pages[k - 1].cursor.Some? ==> EndsAt(AllTargets(pages[..k]), Bound(pages[..k]))
  {
    WalkGoesUp(c, stores, limit, pages, k);
  }

  // ----- nothing is missed -----

  ghost predicate VisibleIn(s: Snapshot, t: Target) {
    exists id: nat :: id < s.n && id in s.m && Visible(s.m[id].status) && s.m[id].target == t
  }

  lemma VisibleIsChosen(c: Collation, s: Snapshot, last: Option<Target>, t: Target)
    ensures Chosen(s.m, s.n, VisiblePast(c, last), t) <==>
              VisibleIn(s, t) && (last == None || Before(c, last.value, t))
  {
    if VisibleIn(s, t) && (last == None || Before(c, last.value, t)) {
      var id: nat :| id < s.n && id in s.m && Visible(s.m[id].status) && s.m[id].target == t;
      assert Picks(s.m, id, VisiblePast(c, last));
    }
  }

  /** A page has every visible target between its cursor and the next. */
  lemma PageHas(c: Collation, s: Snapshot, last: Option<Target>, limit: nat, p: Page, t: Target)
    requires Lawful(c) && IsPage(c, s, last, limit, p)
    requires VisibleIn(s, t) && (last == None || Before(c, last.value, t))
    ensures t in TargetsOf(p.rows) ||
            (p.cursor.Some? && p.rows != [] && Before(c, LastRow(p), t))
  {
    var w := VisiblePast(c, last);
    var groups := SortedTargets(c, s.m, s.n, w);
    VisibleIsChosen(c, s, last, t);
    SortedMembers(c, s.m, s.n, w, t);
    SortedIncreasing(c, s.m, s.n, w);
    PageTargets(c, s, last, limit, p);
    var i :| 0 <= i < |groups| && groups[i] == t;
    if |groups| <= limit || i < limit { assert TargetsOf(p.rows)[i] == t; }
  }

  lemma {:induction false} WalkHas(c: Collation, stores: seq<Snapshot>, limit: nat, pages: seq<Page>, k: nat, t: Target)
    requires Lawful(c) && Paged(c, stores, limit, pages) && 0 < k <= |pages|
    requires forall i :: 0 <= i < k ==> VisibleIn(stores[i], t)
    ensures t in AllTargets(pages[..k]) || (Bound(pages[..k]).Some? && Before(c, Bound(pages[..k]).value, t))
  {
    PagedHere(c, stores, limit, pages, k - 1);
    OnePageMore(pages, k - 1);
    BoundAt(pages, k - 1);
    if k > 1 { WalkHas(c, stores, limit, pages, k - 1, t); }
    if t !in AllTargets(pages[..k - 1]) {
      PageHas(c, stores[k - 1], Bound(pages[..k - 1]), limit, pages[k - 1], t);
    }
  }

  /** Each row carries its target's aggregate and newest save in the very store
      its page was read from, and is about something visible there. */
  lemma PageRowsAreLive(c: Collation, s: Snapshot, last: Option<Target>, limit: nat, p: Page, i: nat)
    requires IsPage(c, s, last, limit, p) && i < |p.rows|
    ensures p.rows[i] == RowOf(s.m, s.n, p.rows[i].target) && VisibleIn(s, p.rows[i].target)
  {
    PageTargets(c, s, last, limit, p);
    var t := TargetsOf(p.rows)[i];
    SortedMembers(c, s.m, s.n, VisiblePast(c, last), t);
    VisibleIsChosen(c, s, last, t);
  }

  /** Stability: with arbitrary writes between the pages, a finished walk lists
      every target that was visible in all the stores read, lists nothing
      twice, and reports only what was true when it looked. */
  lemma ExportIsStable(codec: Codec, c: Collation, stores: seq<Snapshot>, limit: Option<int>, pages: seq<Page>)
    requires RoundTrips(codec) && Lawful(c) && Walk(codec, c, stores, limit, pages) && Finished(pages)
    ensures Increasing(c, AllTargets(pages))
    ensures forall t :: (forall k :: 0 <= k < |stores| ==> VisibleIn(stores[k], t)) ==> t in AllTargets(pages)
    ensures forall k, i :: 0 <= k < |pages| && 0 <= i < |pages[k].rows| ==>
              pages[k].rows[i] == RowOf(stores[k].m, stores[k].n, pages[k].rows[i].target)
              && VisibleIn(stores[k], pages[k].rows[i].target)
  {
    WalkIsPaged(codec, c, stores, limit, pages);
    assert pages[..|pages|] == pages;
    WalkIncreases(c, stores, Clamp(limit), pages, |pages|);
    forall t | forall k :: 0 <= k < |stores| ==> VisibleIn(stores[k], t)
      ensures t in AllTargets(pages)
    {
      WalkHas(c, stores, Clamp(limit), pages, |pages|, t);
    }
    forall k, i | 0 <= k < |pages| && 0 <= i < |pages[k].rows|
      ensures pages[k].rows[i] == RowOf(stores[k].m, stores[k].n, pages[k].rows[i].target)
      ensures VisibleIn(stores[k], pages[k].rows[i].target)
    {
      PagedHere(c, stores, Clamp(limit), pages, k);
      PageRowsAreLive(c, stores[k], Bound(pages[..k]), Clamp(limit), pages[k], i);
    }
  }

  // ----- over a store that does not change -----

  ghost predicate Frozen(stores: seq<Snapshot>, s: Snapshot) {
    forall k :: 0 <= k < |stores| ==> stores[k] == s
  }

  /** The rows of `k` full pages. */
  function FullPages(k: nat, limit: nat): nat {
    if k == 0 then 0 else FullPages(k - 1, limit) + limit
  }

  /** k pages read, a cursor in hand: `limit` targets per page so far. */
  ghost predicate ReadSoFar(all: seq<Target>, limit: nat, k: nat, read: seq<Target>) {
    FullPages(k, limit) <= |all| && read == all[..FullPages(k, limit)] && (k > 0 ==> FullPages(k, limit) < |all|)
  }

  ghost predicate ReadThrough(all: seq<Target>, limit: nat, k: nat, read: seq<Target>) {
    read == all && |all| <= FullPages(k, limit)
  }

  /** What the first `k` pages have read of `all`. */
  ghost predicate ReadTo(all: seq<Target>, limit: nat, pages: seq<Page>, k: nat)
    requires k <= |pages|
  {
    if k == 0 || pages[k - 1].cursor.Some?
    then ReadSoFar(all, limit, k, AllTargets(pages[..k]))
    else ReadThrough(all, limit, k, AllTargets(pages[..k]))
  }

  lemma FrozenPageAt(c: Collation, s: Snapshot, limit: nat, pages: seq<Page>, k: nat)
    requires Lawful(c) && 0 < k <= |pages| && IsPage(c, s, Bound(pages[..k - 1]), limit, pages[k - 1])
    requires GoesUp(c, pages, k - 1) && (k == 1 || pages[k - 2].cursor.Some?)
    requires ReadTo(SortedTargets(c, s.m, s.n, VisiblePast(c, None)), limit, pages, k - 1)
    ensures ReadTo(SortedTargets(c, s.m, s.n, VisiblePast(c, None)), limit, pages, k)
  {
    OnePageMore(pages, k - 1);
    FrozenStep(c, s, limit, k - 1, AllTargets(pages[..k - 1]), Bound(pages[..k - 1]), pages[k - 1]);
  }

  lemma FrozenHere(c: Collation, s: Snapshot, stores: seq<Snapshot>, limit: nat, pages: seq<Page>, k: nat)
    requires Paged(c, stores, limit, pages) && Frozen(stores, s) && k < |pages|
    ensures IsPage(c, s, Bound(pages[..k]), limit, pages[k])
    ensures k == 0 || pages[k - 1].cursor.Some?
  {
    PagedHere(c, stores, limit, pages, k);
    assert stores[k] == s;
  }

  lemma NothingRead(all: seq<Target>, limit: nat, pages: seq<Page>)
    ensures ReadTo(all, limit, pages, 0)
  {
    NoPages(pages);
  }

  lemma {:induction false} FrozenPrefix(c: Collation, s: Snapshot, stores: seq<Snapshot>, limit: nat, pages: seq<Page>, k: nat)
    requires Lawful(c) && Paged(c, stores, limit, pages) && Frozen(stores, s) && k <= |pages|
    ensures ReadTo(SortedTargets(c, s.m, s.n, VisiblePast(c, None)), limit, pages, k)
  {
    if k == 0 {
      NothingRead(SortedTargets(c, s.m, s.n, VisiblePast(c, None)), limit, pages);
    } else {
      FrozenPrefix(c, s, stores, limit, pages, k - 1);
      WalkGoesUp(c, stores, limit, pages, k - 1);
      FrozenHere(c, s, stores, limit, pages, k - 1);
      FrozenPageAt(c, s, limit, pages, k);
    }
  }

  lemma FrozenStep(c: Collation, s: Snapshot, limit: nat, k: nat, read: seq<Target>, last: Option<Target>, p: Page)
    requires Lawful(c) && IsPage(c, s, last, limit, p)
    requires ReadSoFar(SortedTargets(c, s.m, s.n, VisiblePast(c, None)), limit, k, read) && EndsAt(read, last)
    ensures var all := SortedTargets(c, s.m, s.n, VisiblePast(c, None));
            if p.cursor.Some?
            then ReadSoFar(all, limit, k + 1, read + TargetsOf(p.rows))
            else ReadThrough(all, limit, k + 1, read + TargetsOf(p.rows))
  {
    var all, done := SortedTargets(c, s.m, s.n, VisiblePast(c, None)), FullPages(k, limit);
    FrozenGroups(c, s, last, done);
    PageTargets(c, s, last, limit, p);
    NextSlice(all, done, limit);
  }

  lemma NextSlice(all: seq<Target>, done: nat, l: nat)
    requires done <= |all|
    ensures all[..done] + all[done..] == all
    ensures done + l <= |all| ==> all[..done] + all[done..][..l] == all[..done + l]
  {
  }

  /** The groups past the `done`-th target are the rest of the list. */
  lemma FrozenGroups(c: Collation, s: Snapshot, last: Option<Target>, done: nat)
    requires Lawful(c)
    requires var all := SortedTargets(c, s.m, s.n, VisiblePast(c, None));
             done <= |all| && last == if done == 0 then None else Some(all[done - 1])
    ensures SortedTargets(c, s.m, s.n, VisiblePast(c, last)) == SortedTargets(c, s.m, s.n, VisiblePast(c, None))[done..]
  {
    var all := SortedTargets(c, s.m, s.n, VisiblePast(c, None));
    var groups := SortedTargets(c, s.m, s.n, VisiblePast(c, last));
    SortedIncreasing(c, s.m, s.n, VisiblePast(c, None));
    SortedIncreasing(c, s.m, s.n, VisiblePast(c, last));
    forall t
      ensures t in groups <==> t in all[done..]
    {
      SortedMembers(c, s.m, s.n, VisiblePast(c, last), t);
      SortedMembers(c, s.m, s.n, VisiblePast(c, None), t);
      VisibleIsChosen(c, s, last, t);
      VisibleIsChosen(c, s, None, t);
      if done > 0 { PastIsRest(c, all, done, t); }
    }
    IncreasingIsUnique(c, groups, all[done..]);
  }

  function Same(s: Snapshot, n: nat): seq<Snapshot> {
    seq(n, i => s)
  }

  /** Pages got by following the cursors of a server that answers every time
      alike. */
  ghost predicate Follows(answer: Option<string> -> Result<Page>, pages: seq<Page>) {
    && (forall k :: 0 <= k < |pages| ==> FollowsAt(answer, pages, k))
    && (forall k :: 0 <= k < |pages| - 1 ==> pages[k].cursor.Some?)
  }

  ghost predicate FollowsAt(answer: Option<string> -> Result<Page>, pages: seq<Page>, k: nat)
    requires k < |pages|
  {
    answer(CursorBefore(pages, k)) == Ok(pages[k])
  }

  lemma FollowOn(answer: Option<string> -> Result<Page>, pages: seq<Page>, p: Page)
    requires Follows(answer, pages) && (pages == [] || pages[|pages| - 1].cursor.Some?)
    requires answer(CursorBefore(pages, |pages|)) == Ok(p)
    ensures Follows(answer, pages + [p])
  {
    var more := pages + [p];
    forall k | 0 <= k < |more|
      ensures FollowsAt(answer, more, k)
    {
      assert CursorBefore(more, k) == CursorBefore(pages, k);
      assert k < |pages| ==> FollowsAt(answer, pages, k);
    }
  }

  lemma WalkIsFollowing(codec: Codec, c: Collation, s: Snapshot, limit: Option<int>, pages: seq<Page>,
                        answer: Option<string> -> Result<Page>)
    requires forall cursor :: answer(cursor) == Export(codec, c, s.m, s.n, cursor, limit)
    ensures Walk(codec, c, Same(s, |pages|), limit, pages) <==> Follows(answer, pages)
  {
    forall k | 0 <= k < |pages|
      ensures AnsweredAt(codec, c, Same(s, |pages|), limit, pages, k) <==> FollowsAt(answer, pages, k)
    {
      assert Same(s, |pages|)[k] == s;
    }
  }

  /** An unfinished walk can always be taken one page further. */
  lemma OneMorePage(codec: Codec, c: Collation, s: Snapshot, limit: Option<int>, pages: seq<Page>) returns (more: seq<Page>)
    requires RoundTrips(codec) && Walk(codec, c, Same(s, |pages|), limit, pages)
    requires pages == [] || pages[|pages| - 1].cursor.Some?
    ensures |more| == |pages| + 1 && pages <= more && Walk(codec, c, Same(s, |more|), limit, more)
  {
    var k := |pages|;
    assert pages[..k] == pages;
    if k > 0 {
      WalkPage(codec, c, Same(s, k), limit, pages, k - 1);
      CursorReadsBound(codec, pages, k);
    }
    CursorNamesLastRow(codec, c, s, CursorBefore(pages, k), limit, Bound(pages));
    var p := Export(codec, c, s.m, s.n, CursorBefore(pages, k), limit).value;
    var answer := cursor => Export(codec, c, s.m, s.n, cursor, limit);
    WalkIsFollowing(codec, c, s, limit, pages, answer);
    FollowOn(answer, pages, p);
    more := pages + [p];
    WalkIsFollowing(codec, c, s, limit, more, answer);
  }

  /** An unfinished walk over an unchanged store has not yet read everything. */
  lemma UnfinishedIsShort(codec: Codec, c: Collation, s: Snapshot, limit: Option<int>, pages: seq<Page>)
    requires RoundTrips(codec) && Lawful(c) && Walk(codec, c, Same(s, |pages|), limit, pages)
    requires pages == [] || pages[|pages| - 1].cursor.Some?
    ensures FullPages(|pages|, Clamp(limit)) <= |SortedTargets(c, s.m, s.n, VisiblePast(c, None))|
  {
    WalkIsPaged(codec, c, Same(s, |pages|), limit, pages);
    FrozenPrefix(c, s, Same(s, |pages|), Clamp(limit), pages, |pages|);
  }

  /** Following the cursors over an unchanged store always comes to an end. */
  lemma {:induction false} FrozenWalkFinishes(codec: Codec, c: Collation, s: Snapshot, limit: Option<int>, sofar: seq<Page>)
    returns (pages: seq<Page>)
    requires RoundTrips(codec) && Lawful(c) && Walk(codec, c, Same(s, |sofar|), limit, sofar)
    requires sofar == [] || sofar[|sofar| - 1].cursor.Some?
    ensures sofar <= pages && Walk(codec, c, Same(s, |pages|), limit, pages) && Finished(pages)
    decreases |SortedTargets(c, s.m, s.n, VisiblePast(c, None))| - FullPages(|sofar|, Clamp(limit))
  {
    pages := OneMorePage(codec, c, s, limit, sofar);
    if pages[|pages| - 1].cursor.Some? {
      UnfinishedIsShort(codec, c, s, limit, pages);
      assert FullPages(|pages|, Clamp(limit)) == FullPages(|sofar|, Clamp(limit)) + Clamp(limit);
      pages := FrozenWalkFinishes(codec, c, s, limit, pages);
    }
  }

  /** So the whole export of an unchanged store exists, and is what
      `FrozenExportIsComplete` says of it. */
  lemma FrozenExportFinishes(codec: Codec, c: Collation, s: Snapshot, limit: Option<int>) returns (pages: seq<Page>)
    requires RoundTrips(codec) && Lawful(c)
    ensures Walk(codec, c, Same(s, |pages|), limit, pages) && Finished(pages)
    ensures AllTargets(pages) == SortedTargets(c, s.m, s.n, VisiblePast(c, None))
    ensures |pages| == PageCount(|AllTargets(pages)|, Clamp(limit)) && pages[0].total == Some(|AllTargets(pages)|)
  {
    pages := FrozenWalkFinishes(codec, c, s, limit, []);
    FrozenExportIsComplete(codec, c, s, Same(s, |pages|), limit, pages);
  }

  /** Completeness: over an unchanged store, following the cursors to the end
      gives exactly the sorted list of targets with a visible review, in
      max(1, ceil(n / limit)) pages, the first of which announces n. */
  lemma FrozenExportIsComplete(codec: Codec, c: Collation, s: Snapshot, stores: seq<Snapshot>, limit: Option<int>, pages: seq<Page>)
    requires RoundTrips(codec) && Lawful(c) && Walk(codec, c, stores, limit, pages) && Frozen(stores, s) && Finished(pages)
    ensures var all, l := SortedTargets(c, s.m, s.n, VisiblePast(c, None)), Clamp(limit);
            && AllTargets(pages) == all
            && (forall t :: t in all <==> VisibleIn(s, t))
            && |pages| == PageCount(|all|, l)
            && pages[0].total == Some(|all|)
  {
    WalkIsPaged(codec, c, stores, limit, pages);
    FrozenPagesAreAll(c, s, stores, Clamp(limit), pages);
    FirstTotal(codec, c, s, stores, limit, pages);
    forall t
      ensures t in SortedTargets(c, s.m, s.n, VisiblePast(c, None)) <==> VisibleIn(s, t)
    {
      SortedMembers(c, s.m, s.n, VisiblePast(c, None), t);
      VisibleIsChosen(c, s, None, t);
    }
  }

  lemma FrozenPagesAreAll(c: Collation, s: Snapshot, stores: seq<Snapshot>, limit: nat, pages: seq<Page>)
    requires limit >= 1
    requires Lawful(c) && Paged(c, stores, limit, pages) && Frozen(stores, s) && Finished(pages)
    ensures var all := SortedTargets(c, s.m, s.n, VisiblePast(c, None));
            AllTargets(pages) == all && |pages| == PageCount(|all|, limit)
  {
    var all, p := SortedTargets(c, s.m, s.n, VisiblePast(c, None)), |pages|;
    assert pages[..p] == pages;
    FrozenPrefix(c, s, stores, limit, pages, p);
    FrozenPrefix(c, s, stores, limit, pages, p - 1);
    PageCountFromFull(|all|, limit, p);
  }

  lemma PageCountFromFull(n: nat, limit: nat, p: nat)
    requires limit >= 1 && p >= 1
    requires n <= FullPages(p, limit) && (p > 1 ==> FullPages(p - 1, limit) < n)
    ensures p == PageCount(n, limit)
  {
    FullPagesIs(p, limit);
    FullPagesIs(p - 1, limit);
    PageCountIs(n, limit, p);
  }

  lemma FirstTotal(codec: Codec, c: Collation, s: Snapshot, stores: seq<Snapshot>, limit: Option<int>, pages: seq<Page>)
    requires Walk(codec, c, stores, limit, pages) && Frozen(stores, s) && pages != []
    ensures pages[0].total == Some(|SortedTargets(c, s.m, s.n, VisiblePast(c, None))|)
  {
    assert AnsweredAt(codec, c, stores, limit, pages, 0);
  }

  lemma {:induction false} FullPagesIs(k: nat, limit: nat)
    ensures FullPages(k, limit) == k * limit
  {
    if k > 0 { FullPagesIs(k - 1, limit); }
  }

  function PageCount(n: nat, limit: nat): nat
    requires limit >= 1
  {
    if n == 0 then 1 else (n + limit - 1) / limit
  }

  lemma PageCountIs(n: nat, limit: nat, p: nat)
    requires limit >= 1 && p >= 1
    requires n <= p * limit && (p > 1 ==> (p - 1) * limit < n)
    ensures p == PageCount(n, limit)
  {
    if n > 0 {
      assert (p - 1) * limit == p * limit - limit;
      QuotientIs(n + limit - 1, limit, p, n + limit - 1 - p * limit);
    }
  }

  lemma QuotientIs(x: int, d: int, q: int, r: int)
    requires 0 <= r < d && x == q * d + r
    ensures x / d == q
  {
    var e := q - x / d;
    assert d * e == q * d - d * (x / d);
    assert -d < d * e < d;
    if e > 0 { ScaleLe(1, e, d); }
    if e < 0 { ScaleLe(e, -1, d); }
  }
}
