/** Latency percentiles from a histogram of ten buckets; `double` arithmetic
    is modelled over the reals. */
module Percentiles {

  const BUCKETS: nat := 10

  /** Bounds in microseconds; the last bucket, open upwards, counts as 16 ms wide. */
  const LOWER: seq<nat> := [0, 64, 128, 256, 512, 1000, 2000, 4000, 8000, 16000]
  const UPPER: seq<nat> := [64, 128, 256, 512, 1000, 2000, 4000, 8000, 16000, 32000]

  /** The count in the first `n` buckets. */
  function Cum(b: seq<nat>, n: nat): nat
    requires n <= |b|
    decreases n, |b|
  {
    if n == 0 then 0 else Cum(b, n - 1) + b[n - 1]
  }

  lemma {:induction false} CumGrows(b: seq<nat>, m: nat, n: nat)
    requires m <= n <= |b|
    ensures Cum(b, m) <= Cum(b, n)
    decreases n
  {
    if m < n {
      CumGrows(b, m, n - 1);
    }
  }

  function Total(b: seq<nat>): nat {
    Cum(b, |b|)
  }

  /** The count to reach for the `t`-th percentile. */
  function Threshold(t: nat, total: nat): real {
    t as real / 100.0 * total as real
  }

  lemma Thresholds(t: nat, u: nat, total: nat)
    requires 0 < t <= u <= 100 && total > 0
    ensures 0.0 < Threshold(t, total) <= Threshold(u, total) <= total as real
  {
    Scale(t as real / 100.0, u as real / 100.0, total as real, Threshold(t, total), Threshold(u, total));
  }

  lemma Scale(x: real, y: real, n: real, a: real, b: real)
    requires 0.0 < x <= y <= 1.0 && 0.0 < n && a == x * n && b == y * n
    ensures 0.0 < a <= b <= n
  {
    Grows(x, y, n);
    Grows(y, 1.0, n);
    Positive(x, n);
  }

  lemma Positive(x: real, n: real)
    requires 0.0 <= x && 0.0 < n
    ensures 0.0 <= x * n && (0.0 < x ==> 0.0 < x * n)
  {
  }

  lemma Grows(x: real, y: real, n: real)
    requires x <= y && 0.0 < n
    ensures x * n <= y * n
  {
  }

  /** The first bucket from `k` on where the count reaches `th`. */
  function BucketFrom(b: seq<nat>, th: real, k: nat): (i: nat)
    requires k < |b| && Cum(b, k) as real < th <= Total(b) as real
    ensures k <= i < |b| && Cum(b, i) as real < th <= Cum(b, i + 1) as real
    decreases |b| - k
  {
    if th <= Cum(b, k + 1) as real then k else BucketFrom(b, th, k + 1)
  }

  /** No other bucket is where the count reaches `th`. */
  lemma BucketUnique(b: seq<nat>, th: real, i: nat, j: nat)
    requires i < |b| && Cum(b, i) as real < th <= Cum(b, i + 1) as real
    requires j < |b| && Cum(b, j) as real < th <= Cum(b, j + 1) as real
    ensures i == j
  {
    if i < j {
      CumGrows(b, i + 1, j);
    } else if j < i {
      CumGrows(b, j + 1, i);
    }
  }

  /** How far `th` lies between the counts `prev` and `cum`. */
  function Fraction(prev: nat, cum: nat, th: real): (x: real)
    requires prev < cum && prev as real <= th <= cum as real
    ensures 0.0 <= x <= 1.0
  {
    var d := (cum - prev) as real;
    assert 0.0 <= th - prev as real <= d;
    (th - prev as real) / d
  }

  /** That far into the bucket from `lo` to `hi`, truncated. */
  function Interpolate(lo: nat, hi: nat, x: real): (r: nat)
    requires lo <= hi && 0.0 <= x <= 1.0
    ensures lo <= r <= hi
  {
    var range := (hi - lo) as real;
    Bounded(x, range);
    lo + (x * range).Floor
  }

  lemma Bounded(x: real, range: real)
    requires 0.0 <= x <= 1.0 && 0.0 <= range
    ensures 0.0 <= x * range <= range
  {
  }

  /** The `t`-th percentile: in the bucket where the count first reaches its share. */
  function Percentile(b: seq<nat>, t: nat): (r: nat)
    requires |b| == BUCKETS && Total(b) > 0 && 0 < t <= 100
    ensures r <= 32000
  {
    Thresholds(t, t, Total(b));
    var th := Threshold(t, Total(b));
    var i := BucketFrom(b, th, 0);
    Interpolate(LOWER[i], UPPER[i], Fraction(Cum(b, i), Cum(b, i + 1), th))
  }

  lemma FractionGrows(prev: nat, cum: nat, th: real, th': real)
    requires prev < cum && prev as real <= th <= th' <= cum as real
    ensures Fraction(prev, cum, th) <= Fraction(prev, cum, th')
  {
    Divide(th - prev as real, th' - prev as real, (cum - prev) as real);
  }

  lemma Divide(x: real, y: real, d: real)
    requires x <= y && d > 0.0
    ensures x / d <= y / d
  {
  }

  lemma InterpolateGrows(lo: nat, hi: nat, x: real, y: real)
    requires lo <= hi && 0.0 <= x <= y <= 1.0
    ensures Interpolate(lo, hi, x) <= Interpolate(lo, hi, y)
  {
    var range := (hi - lo) as real;
    Multiply(x, y, range);
    FloorGrows(x * range, y * range);
  }

  lemma Multiply(x: real, y: real, range: real)
    requires x <= y && range >= 0.0
    ensures x * range <= y * range
  {
  }

  lemma FloorGrows(x: real, y: real)
    requires x <= y
    ensures x.Floor <= y.Floor
  {
  }

  /** A larger share is reached in the same bucket or a later one. */
  lemma BucketGrows(b: seq<nat>, th: real, th': real, i: nat, j: nat)
    requires th <= th'
    requires i < |b| && Cum(b, i) as real < th <= Cum(b, i + 1) as real
    requires j < |b| && Cum(b, j) as real < th' <= Cum(b, j + 1) as real
    ensures i <= j
  {
    if j < i {
      CumGrows(b, j + 1, i);
    }
  }

  /** Percentiles are ordered like their targets. */
  lemma PercentilesOrdered(b: seq<nat>, t: nat, u: nat)
    requires |b| == BUCKETS && Total(b) > 0 && 0 < t <= u <= 100
    ensures Percentile(b, t) <= Percentile(b, u)
  {
    var total := Total(b);
    Thresholds(t, u, total);
    Thresholds(t, t, total);
    Thresholds(u, u, total);
    var th, th' := Threshold(t, total), Threshold(u, total);
    var i, j := BucketFrom(b, th, 0), BucketFrom(b, th', 0);
    BucketGrows(b, th, th', i, j);
    hide Threshold, Cum, Total, BucketFrom;
    if i == j {
      FractionGrows(Cum(b, i), Cum(b, i + 1), th, th');
      InterpolateGrows(LOWER[i], UPPER[i],
                       Fraction(Cum(b, i), Cum(b, i + 1), th), Fraction(Cum(b, i), Cum(b, i + 1), th'));
    } else {
      BoundsChain(i, j);
    }
  }

  lemma BoundsChain(i: nat, j: nat)
    requires i < j < BUCKETS
    ensures UPPER[i] <= LOWER[j]
  {
  }

  datatype LatencyPercentiles = LatencyPercentiles(p50: nat, p90: nat, p99: nat)

  const TARGETS: seq<nat> := [50, 90, 99]

  /** What the result of target `j` must be. */
  ghost predicate Filled(b: seq<nat>, results: seq<nat>, n: nat)
    requires |b| == BUCKETS && Total(b) > 0
  {
    |results| == 3 && n <= 3 && forall j :: 0 <= j < n ==> results[j] == Percentile(b, TARGETS[j])
  }

  /** The cumulative scan; the fallback after it never applies, since every
      target is reached at the last non-empty bucket. */
  method ComputePercentiles(buckets: seq<nat>) returns (p: LatencyPercentiles)
    requires |buckets| == BUCKETS
    ensures Total(buckets) == 0 ==> p == LatencyPercentiles(0, 0, 0)
    ensures Total(buckets) > 0 ==>
              p == LatencyPercentiles(Percentile(buckets, 50), Percentile(buckets, 90), Percentile(buckets, 99))
    ensures p.p50 <= p.p90 <= p.p99 <= 32000
  {
    hide Threshold, Percentile;
    var total := 0;
    for i := 0 to BUCKETS
      invariant total == Cum(buckets, i)
    {
      total := total + buckets[i];
    }
    if total == 0 {
      return LatencyPercentiles(0, 0, 0);
    }
    var results := [0, 0, 0];
    var ti, cum, i := 0, 0, 0;
    Thresholds(50, 50, total);
    while i < BUCKETS && ti < 3
      invariant i <= BUCKETS && ti <= 3 && cum == Cum(buckets, i)
      invariant Filled(buckets, results, ti)
      invariant ti < 3 ==> cum as real < Threshold(TARGETS[ti], total)
      decreases BUCKETS - i
    {
      if buckets[i] != 0 {
        var prev := cum;
        cum := cum + buckets[i];
        results, ti := FillBucket(buckets, total, i, prev, cum, results, ti);
      }
      i := i + 1;
    }
    if ti < 3 {
      Thresholds(TARGETS[ti], TARGETS[ti], total);
    }
    assert ti == 3;
    p := LatencyPercentiles(results[0], results[1], results[2]);
    PercentilesOrdered(buckets, 50, 90);
    PercentilesOrdered(buckets, 90, 99);
    PercentileBounded(buckets, 99);
  }

  lemma PercentileBounded(b: seq<nat>, t: nat)
    requires |b| == BUCKETS && Total(b) > 0 && 0 < t <= 100
    ensures Percentile(b, t) <= 32000
  {
  }

  /** Every target whose count is reached in bucket `i`. */
  method FillBucket(buckets: seq<nat>, total: nat, i: nat, prev: nat, cum: nat, results0: seq<nat>, ti0: nat)
    returns (results: seq<nat>, ti: nat)
    requires |buckets| == BUCKETS && total == Total(buckets) > 0 && i < BUCKETS && ti0 < 3
    requires prev == Cum(buckets, i) < cum == Cum(buckets, i + 1)
    requires Filled(buckets, results0, ti0) && prev as real < Threshold(TARGETS[ti0], total)
    ensures ti0 <= ti <= 3 && Filled(buckets, results, ti)
    ensures ti < 3 ==> cum as real < Threshold(TARGETS[ti], total)
  {
    hide Threshold, Percentile, Cum, Total, Fraction, Interpolate;
    results, ti := results0, ti0;
    var threshold := Threshold(TARGETS[ti], total);
    while ti < 3 && cum as real >= threshold
      invariant ti0 <= ti <= 3 && Filled(buckets, results, ti)
      invariant ti < 3 ==> threshold == Threshold(TARGETS[ti], total) && prev as real < threshold
      decreases 3 - ti
    {
      var frac := Fraction(prev, cum, threshold);
      PercentileAt(buckets, TARGETS[ti], i);
      results := results[ti := Interpolate(LOWER[i], UPPER[i], frac)];
      ti := ti + 1;
      if ti < 3 {
        Thresholds(TARGETS[ti - 1], TARGETS[ti], total);
        threshold := Threshold(TARGETS[ti], total);
      }
    }
  }

  lemma PercentileAt(b: seq<nat>, t: nat, i: nat)
    requires |b| == BUCKETS && Total(b) > 0 && 0 < t <= 100 && i < BUCKETS
    requires Cum(b, i) as real < Threshold(t, Total(b)) <= Cum(b, i + 1) as real
    ensures Percentile(b, t)
         == Interpolate(LOWER[i], UPPER[i], Fraction(Cum(b, i), Cum(b, i + 1), Threshold(t, Total(b))))
  {
    hide Threshold, Interpolate, Fraction;
    Thresholds(t, t, Total(b));
    BucketUnique(b, Threshold(t, Total(b)), i, BucketFrom(b, Threshold(t, Total(b)), 0));
  }

  // ---- Percentiles by counts alone ----

  /** The bucket of the `t`-th percentile: `t` percent of the requests, or more,
      lie up to it and fewer before it. */
  predicate HoldsShare(b: seq<nat>, t: nat, i: nat) {
    i < |b| && 100 * Cum(b, i) < t * Total(b) <= 100 * Cum(b, i + 1)
  }

  /** In whole numbers: the percentile is as far into its bucket as its share of
      the requests there, rounded down. */
  lemma PercentileByCounts(b: seq<nat>, t: nat) returns (i: nat)
    requires |b| == BUCKETS && Total(b) > 0 && 0 < t <= 100
    ensures HoldsShare(b, t, i) && i < BUCKETS
    ensures var here, into := 100 * (Cum(b, i + 1) - Cum(b, i)), t * Total(b) - 100 * Cum(b, i);
            var r := Percentile(b, t) - LOWER[i];
            r * here <= into * (UPPER[i] - LOWER[i]) < (r + 1) * here
  {
    hide Cum, Total;
    var total := Total(b);
    Thresholds(t, t, total);
    var th := Threshold(t, total);
    i := BucketFrom(b, th, 0) by { FirstCount(b); }
    var prev, cum := Cum(b, i), Cum(b, i + 1);
    ShareInCounts(t, total, prev, cum);
    PercentileAt(b, t, i);
    hide Threshold, Percentile;
    BoundsRise(i);
    InterpolatedIs(LOWER[i], UPPER[i], prev, cum, t * total, th);
  }

  lemma FirstCount(b: seq<nat>)
    ensures Cum(b, 0) == 0
  {
  }

  lemma BoundsRise(i: nat)
    requires i < BUCKETS
    ensures LOWER[i] < UPPER[i]
  {
  }

  lemma ShareInCounts(t: nat, total: nat, prev: nat, cum: nat)
    ensures prev as real < Threshold(t, total) <==> 100 * prev < t * total
    ensures Threshold(t, total) <= cum as real <==> t * total <= 100 * cum
    ensures Threshold(t, total) * 100.0 == (t * total) as real
  {
    assert Threshold(t, total) * 100.0 == t as real * total as real;
    assert t as real * total as real == (t * total) as real;
  }

  lemma InterpolatedIs(lo: nat, hi: nat, prev: nat, cum: nat, share: nat, th: real)
    requires lo < hi && prev < cum && prev as real < th <= cum as real && th * 100.0 == share as real
    requires 100 * prev < share <= 100 * cum
    ensures var r := Interpolate(lo, hi, Fraction(prev, cum, th)) - lo;
            r * (100 * (cum - prev)) <= (share - 100 * prev) * (hi - lo) < (r + 1) * (100 * (cum - prev))
  {
    hide Fraction, Interpolate, Times;
    var x, n, s, w := Fraction(prev, cum, th), 100 * (cum - prev), share - 100 * prev, hi - lo;
    FractionOf(prev, cum, share, th);
    InterpolateIs(lo, hi, x);
    var r := Times(x, w as real).Floor;
    Between(x, w as real, n as real, r, r + 1);
    WholeTimes(r, n);
    WholeTimes(r + 1, n);
    WholeTimes(s, w);
  }

  /** A product of reals, kept as one. */
  function Times(x: real, y: real): real {
    x * y
  }

  lemma WholeTimes(a: int, b: int)
    ensures Times(a as real, b as real) == (a * b) as real
  {
  }

  lemma InterpolateIs(lo: nat, hi: nat, x: real)
    requires lo <= hi && 0.0 <= x <= 1.0
    ensures Interpolate(lo, hi, x) == lo + Times(x, (hi - lo) as real).Floor
  {
  }

  lemma FractionOf(prev: nat, cum: nat, share: nat, th: real)
    requires prev < cum && prev as real <= th <= cum as real && th * 100.0 == share as real
    ensures Times(Fraction(prev, cum, th), (100 * (cum - prev)) as real) == (share - 100 * prev) as real
  {
    var d := (cum - prev) as real;
    Quotient(th - prev as real, d);
    HundredTimes(Fraction(prev, cum, th), d, (100 * (cum - prev)) as real);
  }

  lemma Quotient(a: real, d: real)
    requires d > 0.0
    ensures a / d * d == a
  {
  }

  lemma HundredTimes(x: real, d: real, n: real)
    requires n == 100.0 * d
    ensures x * n == 100.0 * (x * d)
  {
  }

  lemma Between(x: real, w: real, n: real, r: int, next: int)
    requires n > 0.0 && r == Times(x, w).Floor && next == r + 1
    ensures Times(r as real, n) <= Times(Times(x, n), w) < Times(next as real, n)
  {
    hide Times;
    Swapped(x, w, n);
    TimesGrows(r as real, Times(x, w), n);
    TimesGrows(Times(x, w), next as real, n);
  }

  lemma Swapped(x: real, y: real, z: real)
    ensures Times(Times(x, y), z) == Times(Times(x, z), y)
  {
  }

  lemma TimesGrows(x: real, y: real, n: real)
    requires x <= y && 0.0 < n
    ensures Times(x, n) <= Times(y, n) && (x < y ==> Times(x, n) < Times(y, n))
  {
    Positive(y - x, n);
    assert (y - x) * n == y * n - x * n;
  }
}
