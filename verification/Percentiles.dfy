/** Percentiles: the histogram's from its bucket counts (dbbench/stats.go) and the exact one from a
    sorted list of samples (LatencyTracker in benchmarks/write_benchmark.py). */
module Percentiles {
  import opened Arithmetic
  import opened Buckets
  import opened Digests

  // ---------- Sorting and ranks ----------

  predicate Sorted(s: seq<real>) {
    forall i, j :: 0 <= i < j < |s| ==> s[i] <= s[j]
  }

  function Insert(x: real, s: seq<real>): seq<real> {
    if s == [] || s[|s| - 1] <= x then s + [x] else Insert(x, s[..|s| - 1]) + [s[|s| - 1]]
  }

  lemma SortedSnoc(s: seq<real>, x: real)
    requires Sorted(s) && forall y <- s :: y <= x
    ensures Sorted(s + [x])
  {
    forall i, j | 0 <= i < j < |s + [x]| ensures (s + [x])[i] <= (s + [x])[j] {
      assert s[i] in s;
    }
  }

  lemma {:induction false} InsertSorts(x: real, s: seq<real>)
    requires Sorted(s)
    ensures Sorted(Insert(x, s)) && multiset(Insert(x, s)) == multiset(s + [x])
  {
    if s == [] {
    } else if s[|s| - 1] <= x {
      SortedSnoc(s, x);
    } else {
      var s', last := s[..|s| - 1], s[|s| - 1];
      InsertSorts(x, s');
      assert s == s' + [last];
      forall y <- Insert(x, s') ensures y <= last {
        assert y in multiset(s' + [x]);
      }
      SortedSnoc(Insert(x, s'), last);
    }
  }

  /** sorted() of Python. */
  function Sort(s: seq<real>): seq<real> {
    if s == [] then [] else Insert(s[|s| - 1], Sort(s[..|s| - 1]))
  }

  lemma {:induction false} SortSorts(s: seq<real>)
    ensures Sorted(Sort(s)) && multiset(Sort(s)) == multiset(s) && |Sort(s)| == |s|
  {
    if s != [] {
      var s', x := s[..|s| - 1], s[|s| - 1];
      SortSorts(s');
      InsertSorts(x, Sort(s'));
      assert s == s' + [x];
    }
    assert |multiset(Sort(s))| == |multiset(s)|;
  }

  /** In sorted samples, more than r lie in the first k buckets exactly when the r-th (from 0) does. */
  lemma {:induction false} BelowSorted(t: seq<real>, k: nat, r: nat)
    requires Sorted(t) && r < |t|
    ensures Below(t, k) > r <==> Bucket(t[r]) < k
  {
    var t', x := t[..|t| - 1], t[|t| - 1];
    if Bucket(x) < k {
      forall y <- t ensures Bucket(y) < k {
        BucketMonotone(y, x);
      }
      AllBelow(t, k);
    } else if r < |t'| {
      BelowSorted(t', k, r);
    }
  }

  // ---------- Percentiles ----------

  function Ceil(x: real): int { -((-x).Floor) }

  /** int64(math.Ceil(total * p / 100)). */
  function Threshold(n: int, p: real): int { Ceil(Share(n as real, p)) }

  /** p percent of n. */
  function Share(n: real, p: real): real { n * p / 100.0 }

  lemma ThresholdRange(n: nat, p: real)
    requires n > 0
    ensures Threshold(n, p) <= 0 <==> p <= 0.0
    ensures Threshold(n, p) <= n <==> p <= 100.0
  {
    ShareRange(n as real, p);
    CeilAtMost(Share(n as real, p), n);
    CeilAtMost(Share(n as real, p), 0);
  }

  lemma ShareRange(n: real, p: real)
    requires n > 0.0
    ensures Share(n, p) <= n <==> p <= 100.0
    ensures Share(n, p) <= 0.0 <==> p <= 0.0
  {
    ShareMonotone(n, p, 100.0);
    ShareMonotone(n, p, 0.0);
  }

  lemma ShareMonotone(n: real, p: real, q: real)
    requires n > 0.0
    ensures Share(n, p) <= Share(n, q) <==> p <= q
    ensures Share(n, 100.0) == n && Share(n, 0.0) == 0.0
  {
    Scale(n, p, q);
    Hundredth(n * p, n * q);
  }

  lemma Hundredth(y: real, z: real)
    ensures y / 100.0 <= z / 100.0 <==> y <= z
  {
  }

  lemma CeilAtMost(x: real, n: int)
    ensures Ceil(x) <= n <==> x <= n as real
  {
  }

  lemma ThresholdMonotone(n: nat, p: real, q: real)
    requires p <= q
    ensures Threshold(n, p) <= Threshold(n, q)
  {
    if n > 0 {
      ShareMonotone(n as real, p, q);
    }
  }

  /** The ceil(n*p/100)-th smallest sample. */
  function RankSample(s: seq<real>, p: real): real
    requires s != [] && 0.0 < p <= 100.0
  {
    SortSorts(s);
    ThresholdRange(|s|, p);
    Sort(s)[Threshold(|s|, p) - 1]
  }

  lemma RankSampleIsSample(s: seq<real>, p: real)
    requires s != [] && 0.0 < p <= 100.0
    ensures RankSample(s, p) in s
  {
    SortSorts(s);
    ThresholdRange(|s|, p);
    assert RankSample(s, p) in multiset(Sort(s));
  }

  lemma RankSampleMonotone(s: seq<real>, p: real, q: real)
    requires s != [] && 0.0 < p <= q <= 100.0
    ensures RankSample(s, p) <= RankSample(s, q)
  {
    SortSorts(s);
    ThresholdRange(|s|, p);
    ThresholdRange(|s|, q);
    ThresholdMonotone(|s|, p, q);
  }

  lemma CumulativeReachesRank(s: seq<real>, r: nat, k: nat)
    requires r < |s| && k <= BUCKETS
    ensures |Sort(s)| == |s| && (Cumulative(DigestOf(s).counts, k) > r <==> Bucket(Sort(s)[r]) < k)
  {
    var t := Sort(s);
    SortSorts(s);
    DigestPermutes(s, t);
    CumulativeCounts(t, k);
    BelowSorted(t, k, r);
  }

  /** The running count reaches the threshold exactly at the bucket of the rank sample. */
  lemma CumulativeReaches(s: seq<real>, p: real, k: nat)
    requires s != [] && 0.0 < p <= 100.0 && k <= BUCKETS
    ensures Cumulative(DigestOf(s).counts, k) >= Threshold(|s|, p) <==> Bucket(RankSample(s, p)) < k
  {
    ThresholdRange(|s|, p);
    CumulativeReachesRank(s, Threshold(|s|, p) - 1, k);
  }

  /** What percentile returns for a histogram fed these samples: the lower edge of the bucket of the
      ceil(n*p/100)-th smallest sample. Only p > 100 falls through to the maximum. */
  function PercentileOf(s: seq<real>, p: real): real {
    if s == [] || p <= 0.0 then 0.0
    else if p > 100.0 then DigestOf(s).max
    else LowerEdge(Bucket(RankSample(s, p)))
  }

  /** The loop of percentile: the first bucket whose running count reaches the threshold is the rank
      sample's; no bucket's does exactly when p exceeds 100. */
  lemma {:induction false} FirstReachingBucket(s: seq<real>, p: real, b: nat)
    requires s != [] && b <= BUCKETS
    requires forall k :: 0 < k <= b ==> Cumulative(DigestOf(s).counts, k) < Threshold(|s|, p)
    requires b < BUCKETS ==> Cumulative(DigestOf(s).counts, b + 1) >= Threshold(|s|, p)
    ensures b == BUCKETS <==> p > 100.0
    ensures PercentileOf(s, p) == if b == BUCKETS then DigestOf(s).max else LowerEdge(b)
  {
    if 0.0 < p <= 100.0 {
      FirstReachingRank(s, p, b);
    } else {
      ThresholdRange(|s|, p);
      FirstReachingNone(s, Threshold(|s|, p), b);
    }
  }

  lemma FirstReachingRank(s: seq<real>, p: real, b: nat)
    requires s != [] && 0.0 < p <= 100.0 && b <= BUCKETS
    requires b > 0 ==> Cumulative(DigestOf(s).counts, b) < Threshold(|s|, p)
    requires b < BUCKETS ==> Cumulative(DigestOf(s).counts, b + 1) >= Threshold(|s|, p)
    ensures b == Bucket(RankSample(s, p))
  {
    CumulativeReaches(s, p, b);
    if b < BUCKETS {
      CumulativeReaches(s, p, b + 1);
    }
  }

  lemma FirstReachingNone(s: seq<real>, threshold: int, b: nat)
    requires s != [] && b <= BUCKETS && !(0 < threshold <= |s|)
    requires forall k :: 0 < k <= b ==> Cumulative(DigestOf(s).counts, k) < threshold
    requires b < BUCKETS ==> Cumulative(DigestOf(s).counts, b + 1) >= threshold
    ensures b == if threshold <= 0 then 0 else BUCKETS
  {
    CumulativeCounts(s, 1);
    if b < BUCKETS {
      CumulativeCounts(s, b + 1);
    }
  }

  lemma EdgeBelowMax(s: seq<real>, x: real)
    requires x in s
    ensures LowerEdge(Bucket(x)) <= DigestOf(s).max
  {
    ExtremesAreExact(s);
    EdgeApproximates(x);
  }

  /** Percentiles never decrease in p, whatever the samples. */
  lemma {:induction false} PercentileMonotone(s: seq<real>, p: real, q: real)
    requires p <= q
    ensures PercentileOf(s, p) <= PercentileOf(s, q)
  {
    if s == [] || q <= 0.0 {
    } else if q > 100.0 {
      if 0.0 < p <= 100.0 {
        RankSampleIsSample(s, p);
        EdgeBelowMax(s, RankSample(s, p));
      }
    } else {
      var y := RankSample(s, q);
      LowerEdgesAscend(0, Bucket(y));
      if 0.0 < p {
        RankSampleMonotone(s, p, q);
        BucketMonotone(RankSample(s, p), y);
        LowerEdgesAscend(Bucket(RankSample(s, p)), Bucket(y));
      }
    }
  }

  /** int(n * p / 100) of LatencyTracker.percentile, for p >= 0, capped at the last index. */
  function TrackerIndex(n: nat, p: real): (i: nat)
    requires n > 0 && p >= 0.0
    ensures i < n
  {
    ShareMonotone(n as real, 0.0, p);
    var i := Share(n as real, p).Floor;
    if i < n - 1 then i else n - 1
  }

  /** LatencyTracker.percentile of benchmarks/write_benchmark.py on these samples. */
  function TrackerPercentile(s: seq<real>, p: real): real
    requires p >= 0.0
  {
    if s == [] then 0.0
    else
      SortSorts(s);
      Sort(s)[TrackerIndex(|s|, p)]
  }

  /** The rank the histogram uses is never above the one the tracker uses. */
  lemma RankBelowTracker(s: seq<real>, p: real)
    requires s != [] && 0.0 < p <= 100.0
    ensures RankSample(s, p) <= TrackerPercentile(s, p)
  {
    SortSorts(s);
    ThresholdRange(|s|, p);
    IndexAbove(|s|, p);
  }

  lemma IndexAbove(n: nat, p: real)
    requires n > 0 && 0.0 < p <= 100.0
    ensures 0 < Threshold(n, p) <= TrackerIndex(n, p) + 1
  {
    ThresholdRange(n, p);
    CeilFloor(Share(n as real, p));
  }

  lemma CeilFloor(x: real)
    ensures Ceil(x) - 1 <= x.Floor
  {
  }

  /** On nonnegative samples the histogram percentile is a lower approximation of the tracker's, and
      within a quarter of the exact rank sample when that lies between 4 and a million microseconds. */
  lemma {:induction false} HistogramApproximatesTracker(s: seq<real>, p: real)
    requires 0.0 < p <= 100.0 && forall x <- s :: x >= 0.0
    ensures PercentileOf(s, p) <= TrackerPercentile(s, p)
    ensures s != [] && 4.0 <= RankSample(s, p) < 1000000.0 ==>
              PercentileOf(s, p) <= RankSample(s, p) < 1.25 * PercentileOf(s, p)
  {
    if s != [] {
      RankSampleIsSample(s, p);
      RankBelowTracker(s, p);
      EdgeApproximates(RankSample(s, p));
    }
  }

  // ---------- Ranks by counting ----------

  /** How many samples are at most y, and at least y. */
  function AtMost(s: seq<real>, y: real): nat {
    if s == [] then 0 else AtMost(s[..|s| - 1], y) + if s[|s| - 1] <= y then 1 else 0
  }

  function AtLeast(s: seq<real>, y: real): nat {
    if s == [] then 0 else AtLeast(s[..|s| - 1], y) + if s[|s| - 1] >= y then 1 else 0
  }

  /** y is the sample at position i of the sorted samples, told by counting. */
  predicate IsAtRank(s: seq<real>, i: nat, y: real) {
    y in s && AtMost(s, y) >= i + 1 && AtLeast(s, y) >= |s| - i
  }

  lemma CountsSnoc(s: seq<real>, x: real, y: real)
    ensures AtMost(s + [x], y) == AtMost(s, y) + if x <= y then 1 else 0
    ensures AtLeast(s + [x], y) == AtLeast(s, y) + if x >= y then 1 else 0
  {
    assert (s + [x])[..|s|] == s;
  }

  lemma {:induction false} InsertCounts(x: real, s: seq<real>, y: real)
    ensures AtMost(Insert(x, s), y) == AtMost(s + [x], y) && AtLeast(Insert(x, s), y) == AtLeast(s + [x], y)
  {
    if s != [] && s[|s| - 1] > x {
      var s', last := s[..|s| - 1], s[|s| - 1];
      InsertCounts(x, s', y);
      CountsSnoc(Insert(x, s'), last, y);
      CountsSnoc(s', x, y);
      CountsSnoc(s, x, y);
    }
  }

  lemma {:induction false} SortCounts(s: seq<real>, y: real)
    ensures AtMost(Sort(s), y) == AtMost(s, y) && AtLeast(Sort(s), y) == AtLeast(s, y)
  {
    if s != [] {
      var s', x := s[..|s| - 1], s[|s| - 1];
      SortCounts(s', y);
      InsertCounts(x, Sort(s'), y);
      CountsSnoc(Sort(s'), x, y);
    }
  }

  lemma {:induction false} SortedCounts(t: seq<real>, i: nat, y: real)
    requires Sorted(t)
    ensures i < |t| && t[i] <= y ==> AtMost(t, y) >= i + 1
    ensures i < |t| && t[i] >= y ==> AtLeast(t, y) >= |t| - i
  {
    if 0 < |t| && i < |t| {
      var t' := t[..|t| - 1];
      SortedCounts(t', i, y);
      if i == |t'| && i > 0 {
        SortedCounts(t', i - 1, y);
      }
    }
  }

  /** The sorted samples have at position i what counting says. */
  lemma {:induction false} SortRanks(s: seq<real>, i: nat)
    requires i < |s|
    ensures |Sort(s)| == |s| && IsAtRank(s, i, Sort(s)[i])
  {
    SortSorts(s);
    var y := Sort(s)[i];
    assert y in multiset(Sort(s));
    SortedCounts(Sort(s), i, y);
    SortCounts(s, y);
  }

  lemma {:induction false} CountsDisjoint(s: seq<real>, x: real, y: real)
    requires x < y
    ensures AtMost(s, x) + AtLeast(s, y) <= |s|
  {
    if s != [] {
      CountsDisjoint(s[..|s| - 1], x, y);
    }
  }

  /** Only one value has a given rank. */
  lemma {:induction false} RankIsUnique(s: seq<real>, i: nat, x: real, y: real)
    requires i < |s| && IsAtRank(s, i, x)
    ensures IsAtRank(s, i, y) <==> x == y
  {
    if x < y {
      CountsDisjoint(s, x, y);
    } else if y < x {
      CountsDisjoint(s, y, x);
    }
  }

  // ---------- Percentiles by counting ----------

  /** x is a sample that at least p percent of the samples are at most, less than p percent being smaller. */
  predicate IsPercentileSample(s: seq<real>, p: real, x: real) {
    && x in s
    && 100.0 * (AtMost(s, x) as real) >= |s| as real * p
    && 100.0 * ((|s| - AtLeast(s, x)) as real) < |s| as real * p
  }

  lemma CeilBrackets(y: real)
    ensures (100 * (Ceil(y / 100.0) - 1)) as real < y <= (100 * Ceil(y / 100.0)) as real
  {
  }

  lemma PercentileSampleBy(s: seq<real>, p: real, x: real, t: nat)
    requires 0 < t <= |s| && IsAtRank(s, t - 1, x)
    requires (100 * (t - 1)) as real < |s| as real * p <= (100 * t) as real
    ensures IsPercentileSample(s, p, x)
  {
  }

  /** The sample whose bucket the histogram finds is that sample. */
  lemma {:induction false} RankSampleByCounting(s: seq<real>, p: real)
    requires s != [] && 0.0 < p <= 100.0
    ensures IsPercentileSample(s, p, RankSample(s, p))
  {
    ThresholdRange(|s|, p);
    CeilBrackets(|s| as real * p);
    SortRanks(s, Threshold(|s|, p) - 1);
    PercentileSampleBy(s, p, RankSample(s, p), Threshold(|s|, p));
  }

  /** And there is only one. */
  lemma {:induction false} PercentileSampleIsUnique(s: seq<real>, p: real, x: real, y: real)
    requires IsPercentileSample(s, p, x)
    ensures IsPercentileSample(s, p, y) <==> x == y
  {
    if x < y {
      CountsDisjoint(s, x, y);
    } else if y < x {
      CountsDisjoint(s, y, x);
    }
  }

  /** The percentile of the histogram is the largest boundary that sample reaches, so at most the sample
      and, between 4 and a million, less than a quarter below it. */
  lemma {:induction false} PercentileIsFloor(s: seq<real>, p: real, x: real)
    requires s != [] && 0.0 < p <= 100.0 && IsPercentileSample(s, p, x)
    ensures IsFloor(x, PercentileOf(s, p))
    ensures 4.0 <= x < 1000000.0 ==> PercentileOf(s, p) <= x < 1.25 * PercentileOf(s, p)
  {
    RankSampleByCounting(s, p);
    PercentileSampleIsUnique(s, p, x, RankSample(s, p));
    EdgeIsFloor(x);
    EdgeApproximates(x);
  }

  /** The tracker's index is floor(n*p/100) or n-1, whichever is less. */
  lemma {:induction false} TrackerIndexIs(n: nat, p: real, i: nat)
    requires n > 0 && p >= 0.0
    ensures i == TrackerIndex(n, p) <==>
            i < n && (100 * i) as real <= n as real * p && (i < n - 1 ==> n as real * p < (100 * (i + 1)) as real)
  {
    ShareMonotone(n as real, 0.0, p);
    FloorBrackets(n as real * p, i);
  }

  lemma FloorBrackets(y: real, i: int)
    ensures i <= (y / 100.0).Floor <==> (100 * i) as real <= y
    ensures (y / 100.0).Floor < i + 1 <==> y < (100 * (i + 1)) as real
  {
  }
}
