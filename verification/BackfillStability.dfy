/** The owner-key walk while others write: what keyset paging keeps, whatever
    happens to the table between two pages. */
module BackfillStability {
  import opened Model
  import opened Aggregates
  import opened Ordering
  import opened Exporting
  import opened Backfilling

  /** The target the next page starts past. */
  ghost function LastOf(pages: seq<seq<Target>>): Option<Target> {
    if pages == [] || pages[|pages| - 1] == [] then None
    else Some(pages[|pages| - 1][|pages[|pages| - 1]| - 1])
  }

  function AllOf(pages: seq<seq<Target>>): seq<Target> {
    if pages == [] then [] else AllOf(pages[..|pages| - 1]) + pages[|pages| - 1]
  }

  /** One page: the first `batch` candidates past `last`, in the table as it is. */
  ghost predicate IsBatch(c: Collation, s: Snapshot, ttype: string, batch: nat, last: Option<Target>, page: seq<Target>) {
    var found := SortedTargets(c, s.m, s.n, Unstamped(c, ttype, last));
    page == if |found| > batch then found[..batch] else found
  }

  ghost predicate BatchAt(c: Collation, stores: seq<Snapshot>, ttype: string, batch: nat, pages: seq<seq<Target>>, k: nat)
    requires |stores| == |pages| && k < |pages|
  {
    IsBatch(c, stores[k], ttype, batch, LastOf(pages[..k]), pages[k])
  }

  /** A walk page by page, each over a store of its own; an empty page ends it.
      Nothing relates the stores to each other. */
  ghost predicate Batches(c: Collation, stores: seq<Snapshot>, ttype: string, batch: nat, pages: seq<seq<Target>>) {
    && batch >= 1 && |stores| == |pages|
    && (forall k :: 0 <= k < |pages| ==> BatchAt(c, stores, ttype, batch, pages, k))
    && (forall k :: 0 <= k < |pages| - 1 ==> pages[k] != [])
  }

  /** Some row of `t` is a candidate. */
  ghost predicate Waiting(s: Snapshot, ttype: string, t: Target) {
    (ttype == "" || t.ttype == ttype) && exists id: nat :: id < s.n && id in s.m && s.m[id].ownerKey == "" && s.m[id].target == t
  }

  lemma WaitingIsChosen(c: Collation, s: Snapshot, ttype: string, last: Option<Target>, t: Target)
    ensures Chosen(s.m, s.n, Unstamped(c, ttype, last), t) <==>
              Waiting(s, ttype, t) && (last == None || Before(c, last.value, t))
  {
    if Waiting(s, ttype, t) && (last == None || Before(c, last.value, t)) {
      var id: nat :| id < s.n && id in s.m && s.m[id].ownerKey == "" && s.m[id].target == t;
      assert Picks(s.m, id, Unstamped(c, ttype, last));
    }
  }

  // ----- one page -----

  lemma BatchGoesUp(c: Collation, s: Snapshot, ttype: string, batch: nat, last: Option<Target>, page: seq<Target>)
    requires Lawful(c) && IsBatch(c, s, ttype, batch, last, page)
    ensures Increasing(c, page)
    ensures last.Some? ==> AllAfter(c, last.value, page)
  {
    var w := Unstamped(c, ttype, last);
    var found := SortedTargets(c, s.m, s.n, w);
    SortedIncreasing(c, s.m, s.n, w);
    forall i | 0 <= i < |found|
      ensures Chosen(s.m, s.n, w, found[i])
    {
      SortedMembers(c, s.m, s.n, w, found[i]);
    }
  }

  /** A page has every waiting target up to its own last one; a short page has
      them all. */
  lemma BatchHas(c: Collation, s: Snapshot, ttype: string, batch: nat, last: Option<Target>, page: seq<Target>, t: Target)
    requires Lawful(c) && batch >= 1 && IsBatch(c, s, ttype, batch, last, page)
    requires Waiting(s, ttype, t) && (last == None || Before(c, last.value, t))
    ensures t in page || (page != [] && Before(c, page[|page| - 1], t))
  {
    var w := Unstamped(c, ttype, last);
    var found := SortedTargets(c, s.m, s.n, w);
    WaitingIsChosen(c, s, ttype, last, t);
    SortedMembers(c, s.m, s.n, w, t);
    SortedIncreasing(c, s.m, s.n, w);
    var i :| 0 <= i < |found| && found[i] == t;
    if |found| <= batch || i < batch { assert page[i] == t; }
  }

  // ----- the walk -----

  lemma OneBatchMore(pages: seq<seq<Target>>, k: nat)
    requires 0 < k <= |pages|
    ensures AllOf(pages[..k]) == AllOf(pages[..k - 1]) + pages[k - 1]
    ensures LastOf(pages[..k]) == if pages[k - 1] == [] then None else Some(pages[k - 1][|pages[k - 1]| - 1])
  {
    assert pages[..k][..k - 1] == pages[..k - 1];
  }

  lemma BatchHere(c: Collation, stores: seq<Snapshot>, ttype: string, batch: nat, pages: seq<seq<Target>>, k: nat)
    requires Batches(c, stores, ttype, batch, pages) && 0 < k <= |pages|
    ensures IsBatch(c, stores[k - 1], ttype, batch, LastOf(pages[..k - 1]), pages[k - 1])
    ensures k == 1 || pages[k - 2] != []
  {
    assert BatchAt(c, stores, ttype, batch, pages, k - 1);
  }

  /** The targets of the first `k` pages go up and end where the next starts. */
  ghost predicate Climbs(c: Collation, pages: seq<seq<Target>>, k: nat)
    requires k <= |pages|
  {
    && Increasing(c, AllOf(pages[..k]))
    && (k == 0 || pages[k - 1] != [] ==> EndsAt(AllOf(pages[..k]), LastOf(pages[..k])))
  }

  lemma AddBatch(c: Collation, pages: seq<seq<Target>>, k: nat, last: Option<Target>)
    requires Lawful(c) && 0 < k <= |pages| && last == LastOf(pages[..k - 1])
    requires Increasing(c, pages[k - 1]) && (last.Some? ==> AllAfter(c, last.value, pages[k - 1]))
    requires Climbs(c, pages, k - 1) && (k == 1 || pages[k - 2] != [])
    ensures Climbs(c, pages, k)
  {
    OneBatchMore(pages, k);
    Concatenate(c, AllOf(pages[..k - 1]), pages[k - 1], last);
  }

  lemma {:induction false} WalkClimbs(c: Collation, stores: seq<Snapshot>, ttype: string, batch: nat, pages: seq<seq<Target>>, k: nat)
    requires Lawful(c) && Batches(c, stores, ttype, batch, pages) && k <= |pages|
    ensures Climbs(c, pages, k)
  {
    if k == 0 {
      assert pages[..0] == [];
    } else {
      WalkClimbs(c, stores, ttype, batch, pages, k - 1);
      BatchHere(c, stores, ttype, batch, pages, k);
      BatchGoesUp(c, stores[k - 1], ttype, batch, LastOf(pages[..k - 1]), pages[k - 1]);
      AddBatch(c, pages, k, LastOf(pages[..k - 1]));
    }
  }

  ghost predicate WaitingUnlessVisited(stores: seq<Snapshot>, ttype: string, pages: seq<seq<Target>>, k: nat, t: Target)
    requires |stores| == |pages| && k < |pages|
  {
    t in AllOf(pages[..k]) || Waiting(stores[k], ttype, t)
  }

  lemma {:induction false} WalkReaches(c: Collation, stores: seq<Snapshot>, ttype: string, batch: nat, pages: seq<seq<Target>>,
                                       k: nat, t: Target)
    requires Lawful(c) && Batches(c, stores, ttype, batch, pages) && 0 < k <= |pages|
    requires forall i :: 0 <= i < k ==> WaitingUnlessVisited(stores, ttype, pages, i, t)
    ensures t in AllOf(pages[..k]) || (LastOf(pages[..k]).Some? && Before(c, LastOf(pages[..k]).value, t))
  {
    BatchHere(c, stores, ttype, batch, pages, k);
    OneBatchMore(pages, k);
    if k > 1 { WalkReaches(c, stores, ttype, batch, pages, k - 1, t); }
    if t !in AllOf(pages[..k - 1]) {
      assert WaitingUnlessVisited(stores, ttype, pages, k - 1, t);
      NoneBeforeTheFirst(pages, k);
      BatchHas(c, stores[k - 1], ttype, batch, LastOf(pages[..k - 1]), pages[k - 1], t);
    }
  }

  lemma NoneBeforeTheFirst(pages: seq<seq<Target>>, k: nat)
    requires 0 < k <= |pages|
    ensures k == 1 ==> LastOf(pages[..k - 1]) == None
  {
  }

  lemma IncreasingIsDistinct(c: Collation, s: seq<Target>)
    requires Lawful(c) && Increasing(c, s)
    ensures forall i, j :: 0 <= i < j < |s| ==> s[i] != s[j]
  {
    forall i, j | 0 <= i < j < |s|
      ensures s[i] != s[j]
    {
      BeforeIsStrict(c, s[i], s[j]);
    }
  }

  /** With arbitrary writes between the pages, the walk's own among them, no target
      comes twice; and once the walk has come to its empty page, every target
      that had a candidate row at each page read until its visit was visited. */
  lemma BackfillIsStable(c: Collation, stores: seq<Snapshot>, ttype: string, batch: nat, pages: seq<seq<Target>>)
    requires Lawful(c) && Batches(c, stores, ttype, batch, pages)
    ensures Increasing(c, AllOf(pages))
    ensures forall i, j :: 0 <= i < j < |AllOf(pages)| ==> AllOf(pages)[i] != AllOf(pages)[j]
    ensures pages != [] && pages[|pages| - 1] == [] ==>
              forall t :: (forall k :: 0 <= k < |pages| ==> WaitingUnlessVisited(stores, ttype, pages, k, t)) ==> t in AllOf(pages)
  {
    assert pages[..|pages|] == pages;
    WalkClimbs(c, stores, ttype, batch, pages, |pages|);
    IncreasingIsDistinct(c, AllOf(pages));
    if pages != [] && pages[|pages| - 1] == [] {
      forall t | forall k :: 0 <= k < |pages| ==> WaitingUnlessVisited(stores, ttype, pages, k, t)
        ensures t in AllOf(pages)
      {
        WalkReaches(c, stores, ttype, batch, pages, |pages|, t);
      }
    }
  }
}
