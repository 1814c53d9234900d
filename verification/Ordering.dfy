/** Keyset order: the pair (type, key) under whatever order the database gives
    each column. */
module Ordering {
  import opened Model
  import opened Aggregates

  /** The database's order on each column, taken as a strict total order. */
  datatype Collation = Collation(typeLess: (string, string) -> bool, keyLess: (string, string) -> bool)

  ghost predicate StrictTotal(less: (string, string) -> bool) {
    && (forall a :: !less(a, a))
    && (forall a, b, c :: less(a, b) && less(b, c) ==> less(a, c))
    && (forall a, b :: a == b || less(a, b) || less(b, a))
  }

  ghost predicate Lawful(c: Collation) {
    StrictTotal(c.typeLess) && StrictTotal(c.keyLess)
  }

  /** The keyset filter: type greater, or type equal and key greater. */
  predicate Before(c: Collation, a: Target, b: Target) {
    c.typeLess(a.ttype, b.ttype) || (a.ttype == b.ttype && c.keyLess(a.tkey, b.tkey))
  }

  lemma BeforeIsStrict(c: Collation, a: Target, b: Target)
    requires Lawful(c) && Before(c, a, b)
    ensures a != b && !Before(c, b, a)
  {
  }

  lemma BeforeIsTransitive(c: Collation, a: Target, b: Target, d: Target)
    requires Lawful(c) && Before(c, a, b) && Before(c, b, d)
    ensures Before(c, a, d)
  {
  }

  lemma BeforeIsTotal(c: Collation, a: Target, b: Target)
    requires Lawful(c)
    ensures a == b || Before(c, a, b) || Before(c, b, a)
  {
  }

  ghost predicate Increasing(c: Collation, s: seq<Target>) {
    forall i, j :: 0 <= i < j < |s| ==> Before(c, s[i], s[j])
  }

  /** The targets of a type stand together, types in their order and keys in
      theirs within a type. */
  lemma TypesThenKeys(c: Collation, s: seq<Target>, i: nat, j: nat)
    requires Lawful(c) && Increasing(c, s) && i < j < |s|
    ensures s[i].ttype != s[j].ttype ==> c.typeLess(s[i].ttype, s[j].ttype)
    ensures s[i].ttype == s[j].ttype ==> c.keyLess(s[i].tkey, s[j].tkey)
    ensures s[i].ttype == s[j].ttype ==> forall k :: i <= k <= j ==> s[k].ttype == s[i].ttype
  {
    if s[i].ttype == s[j].ttype {
      forall k | i < k < j
        ensures s[k].ttype == s[i].ttype
      {
        assert Before(c, s[i], s[k]) && Before(c, s[k], s[j]);
      }
    }
  }

  // ----- SELECT DISTINCT type, key ... ORDER BY type, key -----

  function Place(c: Collation, t: Target, s: seq<Target>): seq<Target> {
    if s == [] then [t]
    else if t == s[0] then s
    else if Before(c, t, s[0]) then [t] + s
    else [s[0]] + Place(c, t, s[1..])
  }

  /** The distinct targets of the selected rows, in order. */
  function SortedTargets(c: Collation, m: Table, n: nat, w: Where): seq<Target> {
    if n == 0 then []
    else
      var s := SortedTargets(c, m, n - 1, w);
      if Picks(m, n - 1, w) then Place(c, m[n - 1].target, s) else s
  }

  /** Some selected row is about `t`. */
  ghost predicate Chosen(m: Table, n: nat, w: Where, t: Target) {
    exists id: nat :: id < n && Picks(m, id, w) && m[id].target == t
  }

  lemma {:induction false} PlaceMembers(c: Collation, t: Target, s: seq<Target>, u: Target)
    ensures u in Place(c, t, s) <==> u == t || u in s
  {
    if s != [] {
      PlaceMembers(c, t, s[1..], u);
      assert u in s <==> u == s[0] || u in s[1..];
    }
  }

  ghost predicate AllAfter(c: Collation, t: Target, s: seq<Target>) {
    forall i :: 0 <= i < |s| ==> Before(c, t, s[i])
  }

  lemma ConsIncreasing(c: Collation, t: Target, s: seq<Target>)
    requires Increasing(c, s) && AllAfter(c, t, s)
    ensures Increasing(c, [t] + s)
  {
  }

  lemma {:induction false} PlaceIncreasing(c: Collation, t: Target, s: seq<Target>)
    requires Lawful(c) && Increasing(c, s)
    ensures Increasing(c, Place(c, t, s))
    ensures forall u :: Before(c, u, t) && AllAfter(c, u, s) ==> AllAfter(c, u, Place(c, t, s))
  {
    if s != [] && t != s[0] {
      if Before(c, t, s[0]) {
        forall i | 0 <= i < |s|
          ensures Before(c, t, s[i])
        {
          if i > 0 { BeforeIsTransitive(c, t, s[0], s[i]); }
        }
        ConsIncreasing(c, t, s);
      } else {
        BeforeIsTotal(c, t, s[0]);
        PlaceIncreasing(c, t, s[1..]);
        assert AllAfter(c, s[0], s[1..]);
        ConsIncreasing(c, s[0], Place(c, t, s[1..]));
        forall u | Before(c, u, t) && AllAfter(c, u, s)
          ensures AllAfter(c, u, Place(c, t, s))
        {
          assert Before(c, u, s[0]);
          assert AllAfter(c, u, s[1..]);
        }
      }
    }
  }

  lemma {:induction false} SortedIncreasing(c: Collation, m: Table, n: nat, w: Where)
    requires Lawful(c)
    ensures Increasing(c, SortedTargets(c, m, n, w))
  {
    if n > 0 {
      SortedIncreasing(c, m, n - 1, w);
      if Picks(m, n - 1, w) { PlaceIncreasing(c, m[n - 1].target, SortedTargets(c, m, n - 1, w)); }
    }
  }

  lemma {:induction false} SortedMembers(c: Collation, m: Table, n: nat, w: Where, t: Target)
    ensures t in SortedTargets(c, m, n, w) <==> Chosen(m, n, w, t)
  {
    if n > 0 {
      SortedMembers(c, m, n - 1, w, t);
      if Picks(m, n - 1, w) { PlaceMembers(c, m[n - 1].target, SortedTargets(c, m, n - 1, w), t); }
      assert Chosen(m, n, w, t) <==> Chosen(m, n - 1, w, t) || (Picks(m, n - 1, w) && m[n - 1].target == t);
    }
  }

  // ----- increasing sequences are determined by their members -----

  lemma {:induction false} IncreasingIsUnique(c: Collation, r: seq<Target>, s: seq<Target>)
    requires Lawful(c) && Increasing(c, r) && Increasing(c, s)
    requires forall t :: t in r <==> t in s
    ensures r == s
  {
    EmptyTogether(r, s);
    if r != [] {
      SameHead(c, r, s);
      forall t
        ensures t in r[1..] <==> t in s[1..]
      {
        TailMembers(c, r, t);
        TailMembers(c, s, t);
      }
      IncreasingIsUnique(c, r[1..], s[1..]);
      assert r == [r[0]] + r[1..] && s == [s[0]] + s[1..];
    }
  }

  lemma EmptyTogether(r: seq<Target>, s: seq<Target>)
    requires forall t :: t in r <==> t in s
    ensures r == [] <==> s == []
  {
    if r != [] { assert r[0] in r; }
    if s != [] { assert s[0] in s; }
  }

  lemma SameHead(c: Collation, r: seq<Target>, s: seq<Target>)
    requires Lawful(c) && Increasing(c, r) && Increasing(c, s) && r != [] && s != []
    requires forall t :: t in r <==> t in s
    ensures r[0] == s[0]
  {
    assert r[0] in s && s[0] in r;
    var i :| 0 <= i < |s| && s[i] == r[0];
    var j :| 0 <= j < |r| && r[j] == s[0];
    if i > 0 && j > 0 { BeforeIsStrict(c, r[0], s[0]); }
  }

  lemma TailMembers(c: Collation, s: seq<Target>, t: Target)
    requires Lawful(c) && Increasing(c, s) && s != []
    ensures t in s[1..] <==> t in s && t != s[0]
  {
    assert s == [s[0]] + s[1..];
    if t in s[1..] {
      var i :| 1 <= i < |s| && s[i] == t;
      BeforeIsStrict(c, s[0], s[i]);
    }
  }

  /** What lies past an element of an increasing sequence is the rest of it. */
  lemma PastIsRest(c: Collation, s: seq<Target>, k: nat, t: Target)
    requires Lawful(c) && Increasing(c, s) && 0 < k <= |s|
    ensures t in s[k..] <==> t in s && Before(c, s[k - 1], t)
  {
    if t in s && Before(c, s[k - 1], t) {
      var i :| 0 <= i < |s| && s[i] == t;
      if i < k - 1 { BeforeIsStrict(c, s[i], s[k - 1]); }
      if i == k - 1 { BeforeIsStrict(c, s[i], t); }
      assert s[k..][i - k] == t;
    }
  }

  // ----- a lawful collation exists -----

  /** Order by code point, as the C collation has it. */
  predicate CodePointLess(a: string, b: string) {
    if b == "" then false
    else if a == "" then true
    else a[0] < b[0] || (a[0] == b[0] && CodePointLess(a[1..], b[1..]))
  }

  lemma {:induction false} CodePointIrreflexive(a: string)
    ensures !CodePointLess(a, a)
  {
    if a != "" { CodePointIrreflexive(a[1..]); }
  }

  lemma {:induction false} CodePointTransitive(a: string, b: string, d: string)
    requires CodePointLess(a, b) && CodePointLess(b, d)
    ensures CodePointLess(a, d)
  {
    if a != "" && a[0] == b[0] && b[0] == d[0] { CodePointTransitive(a[1..], b[1..], d[1..]); }
  }

  lemma {:induction false} CodePointTotal(a: string, b: string)
    ensures a == b || CodePointLess(a, b) || CodePointLess(b, a)
  {
    if a != "" && b != "" && a[0] == b[0] {
      CodePointTotal(a[1..], b[1..]);
      assert a == [a[0]] + a[1..] && b == [b[0]] + b[1..];
    }
  }

  lemma CodePointsAreLawful()
    ensures Lawful(Collation(CodePointLess, CodePointLess))
  {
    forall a { CodePointIrreflexive(a); }
    forall a, b, d | CodePointLess(a, b) && CodePointLess(b, d) { CodePointTransitive(a, b, d); }
    forall a, b { CodePointTotal(a, b); }
  }
}
