/** The published mean: an exact rational rounded once to three decimals, ties
    to even, and held in thousandths. */
module Rounding {
  import opened Model

  datatype Tally = Tally(sum: int, count: nat)

  /** `round(avg, 3)`, or 0.0 when there is nothing to average. */
  function Mean(t: Tally): int {
    if t.count == 0 then 0 else RoundHalfEven(1000 * t.sum, t.count)
  }

  function RoundHalfEven(numerator: int, denominator: int): int
    requires denominator > 0
  {
    var q, r := numerator / denominator, numerator % denominator;
    if 2 * r < denominator then q
    else if 2 * r > denominator then q + 1
    else if q % 2 == 0 then q
    else q + 1
  }

  function Summarize(t: Tally): Aggregate {
    Aggregate(Mean(t), t.count)
  }

  /** Within half a unit, and on an exact tie even: this pins the result down. */
  ghost predicate IsNearestEven(numerator: int, denominator: int, k: int) {
    && 2 * numerator - denominator <= 2 * denominator * k <= 2 * numerator + denominator
    && (2 * denominator * k == 2 * numerator - denominator ==> k % 2 == 0)
    && (2 * denominator * k == 2 * numerator + denominator ==> k % 2 == 0)
  }

  lemma RoundIsNearestEven(numerator: int, denominator: int)
    requires denominator > 0
    ensures IsNearestEven(numerator, denominator, RoundHalfEven(numerator, denominator))
  {
    var q, r := numerator / denominator, numerator % denominator;
    assert numerator == denominator * q + r;
    assert denominator * (q + 1) == denominator * q + denominator;
  }

  /** Equal or larger fractions round to equal or larger integers. */
  lemma RoundIsMonotone(n1: int, d1: int, n2: int, d2: int, k1: int, k2: int)
    requires d1 > 0 && d2 > 0 && n1 * d2 <= n2 * d1
    requires IsNearestEven(n1, d1, k1) && IsNearestEven(n2, d2, k2)
    ensures k1 <= k2
  {
    NearestScales(n1, d1, k1, d2);
    NearestScales(n2, d2, k2, d1);
    Commute(d1, d2);
    Commute(n1, d2);
    Commute(n2, d1);
    NearestIsMonotone(d2 * n1, d1 * n2, d2 * d1, k1, k2);
  }

  lemma Commute(a: int, b: int)
    ensures a * b == b * a
  {
  }

  /** Over one denominator: a difference of a whole unit would put both fractions
      on the same midpoint, and a midpoint rounds one way. */
  lemma NearestIsMonotone(n1: int, n2: int, d: int, k1: int, k2: int)
    requires d > 0 && n1 <= n2
    requires IsNearestEven(n1, d, k1) && IsNearestEven(n2, d, k2)
    ensures k1 <= k2
  {
    if k1 > k2 { UnitsApart(d, k1, k2); }
  }

  lemma UnitsApart(d: int, k1: int, k2: int)
    requires d > 0 && k1 > k2
    ensures 2 * d * k1 - 2 * d * k2 >= 2 * d
    ensures k1 - k2 > 1 ==> 2 * d * k1 - 2 * d * k2 >= 4 * d
  {
    Distribute(2 * d, k1, k2);
    ScaleLe(1, k1 - k2, 2 * d);
    if k1 - k2 > 1 { ScaleLe(2, k1 - k2, 2 * d); }
  }

  lemma Distribute(d: int, k1: int, k2: int)
    ensures d * k1 - d * k2 == d * (k1 - k2)
  {
  }

  lemma NearestScales(n: int, d: int, k: int, e: int)
    requires d > 0 && e > 0 && IsNearestEven(n, d, k)
    ensures IsNearestEven(e * n, e * d, k)
  {
    var x := 2 * d * k;
    assert 2 * (e * d) * k == e * x by { Regroup(e, d, k); }
    ScaleLe(2 * n - d, x, e);
    ScaleLe(x, 2 * n + d, e);
    assert e * (2 * n - d) == 2 * (e * n) - e * d;
    assert e * (2 * n + d) == 2 * (e * n) + e * d;
    if e * x == e * (2 * n - d) { CancelEq(x, 2 * n - d, e); }
    if e * x == e * (2 * n + d) { CancelEq(x, 2 * n + d, e); }
  }

  lemma Regroup(e: int, d: int, k: int)
    ensures 2 * (e * d) * k == e * (2 * d * k)
  {
  }

  lemma ScaleLe(a: int, b: int, d: int)
    requires d > 0 && a <= b
    ensures d * a <= d * b
  {
    assert d * (b - a) >= 0;
  }

  lemma CancelEq(a: int, b: int, d: int)
    requires d > 0 && d * a == d * b
    ensures a == b
  {
    if a < b { ScaleLe(a + 1, b, d); }
    if b < a { ScaleLe(b + 1, a, d); }
  }

  /** The three-decimal mean stays inside the rating bounds and within half a
      thousandth of the exact mean. */
  lemma MeanIsHonest(t: Tally, lo: int, hi: int)
    requires t.count > 0
    requires lo * t.count <= t.sum <= hi * t.count
    ensures 1000 * lo <= Mean(t) <= 1000 * hi
    ensures 2 * 1000 * t.sum - t.count <= 2 * t.count * Mean(t) <= 2 * 1000 * t.sum + t.count
  {
    RoundIsNearestEven(1000 * t.sum, t.count);
    Thousandfold(lo, t.count, t.sum);
    Thousandfold(-hi, t.count, -t.sum);
    RoundAbove(1000 * t.sum, t.count, 1000 * lo, Mean(t));
    RoundBelow(1000 * t.sum, t.count, 1000 * hi, Mean(t));
    NearestWithin(1000 * t.sum, t.count, Mean(t));
  }

  lemma Thousandfold(bound: int, count: int, sum: int)
    requires bound * count <= sum
    ensures (1000 * bound) * count <= 1000 * sum
    ensures (1000 * -bound) * count >= 1000 * -sum
  {
    assert (1000 * bound) * count == 1000 * (bound * count);
    assert (1000 * -bound) * count == -(1000 * (bound * count));
  }

  /** A fraction rounds to no less than an integer it is not below, and to no
      more than one it is not above. */
  lemma RoundAbove(n: int, d: int, k: int, rounded: int)
    requires d > 0 && k * d <= n && IsNearestEven(n, d, rounded)
    ensures k <= rounded
  {
    IntegerIsItsOwnRound(k);
    RoundIsMonotone(k, 1, n, d, k, rounded);
  }

  lemma RoundBelow(n: int, d: int, k: int, rounded: int)
    requires d > 0 && n <= k * d && IsNearestEven(n, d, rounded)
    ensures rounded <= k
  {
    IntegerIsItsOwnRound(k);
    RoundIsMonotone(n, d, k, 1, rounded, k);
  }

  lemma NearestWithin(n: int, d: int, k: int)
    requires IsNearestEven(n, d, k)
    ensures 2 * n - d <= 2 * d * k <= 2 * n + d
  {
  }

  lemma IntegerIsItsOwnRound(k: int)
    ensures IsNearestEven(k, 1, k)
  {
  }

  /** A target with the larger exact mean never shows the smaller number. */
  lemma MeanIsMonotone(a: Tally, b: Tally)
    requires a.count > 0 && b.count > 0
    requires a.sum * b.count <= b.sum * a.count
    ensures Mean(a) <= Mean(b)
  {
    RoundIsNearestEven(1000 * a.sum, a.count);
    RoundIsNearestEven(1000 * b.sum, b.count);
    assert (1000 * a.sum) * b.count == 1000 * (a.sum * b.count);
    assert (1000 * b.sum) * a.count == 1000 * (b.sum * a.count);
    RoundIsMonotone(1000 * a.sum, a.count, 1000 * b.sum, b.count, Mean(a), Mean(b));
  }
}
