/** The latency histogram of dbbench/stats.go: what a sequence of samples leaves in it, why merging
    per-thread histograms loses nothing, and its statistics. */
module Digests {
  import opened Buckets

  const BUCKETS: nat := COUNT + 1

  /** math.MaxFloat64, the minimum of an empty histogram: 2^1024 - 2^971. */
  const MAX_FLOAT64: real := 0xFFFFFFFFFFFFF800000000000000000000000000000000000000000000000000000000000000000000000000000000000000000000000000000000000000000000000000000000000000000000000000000000000000000000000000000000000000000000000000000000000000000000000000000000000000000000000000 as real

  // ---------- What a histogram holds ----------

  datatype Digest = Digest(counts: seq<int>, total: int, sum: real, sumSq: real, min: real, max: real)

  function Less(a: real, b: real): real { if b < a then b else a }

  function Greater(a: real, b: real): real { if b > a then b else a }

  function Empty(): Digest {
    Digest(seq(BUCKETS, _ => 0), 0, 0.0, 0.0, MAX_FLOAT64, 0.0)
  }

  function AddTo(d: Digest, x: real): Digest
    requires |d.counts| == BUCKETS
  {
    var b := Bucket(x);
    Digest(d.counts[b := d.counts[b] + 1], d.total + 1, d.sum + x, d.sumSq + x * x, Less(d.min, x), Greater(d.max, x))
  }

  function Merged(d: Digest, e: Digest): (r: Digest)
    requires |d.counts| == |e.counts|
    ensures |r.counts| == |d.counts|
  {
    Digest(seq(|d.counts|, i requires 0 <= i < |d.counts| => d.counts[i] + e.counts[i]),
           d.total + e.total, d.sum + e.sum, d.sumSq + e.sumSq, Less(d.min, e.min), Greater(d.max, e.max))
  }

  /** The digest of samples added one by one to a new histogram. */
  function DigestOf(s: seq<real>): (d: Digest)
    ensures |d.counts| == BUCKETS && d.total == |s|
    ensures d.min <= MAX_FLOAT64 && d.max >= 0.0
  {
    if s == [] then Empty() else AddTo(DigestOf(s[..|s| - 1]), s[|s| - 1])
  }

  // ---------- Merging ----------

  lemma MergeComm(d: Digest, e: Digest)
    requires |d.counts| == |e.counts|
    ensures Merged(d, e) == Merged(e, d)
  {
  }

  lemma MergeAssoc(d: Digest, e: Digest, f: Digest)
    requires |d.counts| == |e.counts| == |f.counts|
    ensures Merged(Merged(d, e), f) == Merged(d, Merged(e, f))
  {
  }

  lemma MergeEmpty(d: Digest)
    requires |d.counts| == BUCKETS && d.min <= MAX_FLOAT64 && d.max >= 0.0
    ensures Merged(d, Empty()) == d
  {
    assert Merged(d, Empty()).counts == d.counts;
  }

  lemma AddThenMerge(d: Digest, e: Digest, x: real)
    requires |d.counts| == |e.counts| == BUCKETS
    ensures Merged(d, AddTo(e, x)) == AddTo(Merged(d, e), x)
  {
    assert Merged(d, AddTo(e, x)).counts == AddTo(Merged(d, e), x).counts;
  }

  /** Merging two histograms gives the histogram of all their samples. */
  lemma {:induction false} DigestConcat(s: seq<real>, t: seq<real>)
    ensures DigestOf(s + t) == Merged(DigestOf(s), DigestOf(t))
  {
    if t == [] {
      MergeEmpty(DigestOf(s));
      assert s + t == s;
    } else {
      var t', x := t[..|t| - 1], t[|t| - 1];
      DigestConcat(s, t');
      AddThenMerge(DigestOf(s), DigestOf(t'), x);
      assert (s + t)[..|s + t| - 1] == s + t';
    }
  }

  /** A permutation of s + [x] is x between two parts that together are a permutation of s. */
  lemma SplitAt(s: seq<real>, x: real, t: seq<real>) returns (a: seq<real>, b: seq<real>)
    requires multiset(s + [x]) == multiset(t)
    ensures t == a + [x] + b && multiset(s) == multiset(a + b) && |a + b| == |s|
  {
    assert multiset(s + [x]) == multiset(s) + multiset{x};
    assert x in multiset(t);
    var i :| 0 <= i < |t| && t[i] == x;
    a, b := t[..i], t[i + 1..];
    assert t == a + [x] + b;
    assert multiset(a + [x] + b) == multiset(a + b) + multiset{x};
    Cancel(multiset(s), multiset(a + b), x);
    assert |multiset(s)| == |s| && |multiset(a + b)| == |a + b|;
  }

  lemma Cancel(m: multiset<real>, n: multiset<real>, x: real)
    requires m + multiset{x} == n + multiset{x}
    ensures m == n
  {
    forall y ensures m[y] == n[y] {
      assert (m + multiset{x})[y] == m[y] + multiset{x}[y];
      assert (n + multiset{x})[y] == n[y] + multiset{x}[y];
    }
  }

  /** The digest does not depend on the order of the samples. */
  lemma {:induction false} DigestPermutes(s: seq<real>, t: seq<real>)
    requires multiset(s) == multiset(t)
    ensures DigestOf(s) == DigestOf(t)
  {
    if s == [] {
      assert |multiset(t)| == 0;
    } else {
      var s', x := s[..|s| - 1], s[|s| - 1];
      assert s == s' + [x];
      var a, b := SplitAt(s', x, t);
      DigestPermutes(s', a + b);
      MoveToEnd(a, x, b);
      assert (a + b + [x])[..|s| - 1] == a + b;
    }
  }

  lemma MoveToEnd(a: seq<real>, x: real, b: seq<real>)
    ensures DigestOf(a + [x] + b) == DigestOf(a + b + [x])
  {
    DigestConcat(a + [x], b);
    DigestConcat(a, [x]);
    DigestConcat(a, b);
    DigestConcat(a + b, [x]);
    MergeAssoc(DigestOf(a), DigestOf([x]), DigestOf(b));
    MergeComm(DigestOf([x]), DigestOf(b));
    MergeAssoc(DigestOf(a), DigestOf(b), DigestOf([x]));
  }

  /** All samples of several histograms. */
  function Flatten(parts: seq<seq<real>>): seq<real> {
    if parts == [] then [] else Flatten(parts[..|parts| - 1]) + parts[|parts| - 1]
  }

  /** Per-thread histograms merged one after another into a new one. */
  function MergeAll(parts: seq<seq<real>>): (d: Digest)
    ensures |d.counts| == BUCKETS
  {
    if parts == [] then Empty() else Merged(MergeAll(parts[..|parts| - 1]), DigestOf(parts[|parts| - 1]))
  }

  /** However samples are spread over threads, and in whatever order the threads are merged, the result
      is the histogram fed all the samples. */
  lemma {:induction false} SpreadingLosesNothing(parts: seq<seq<real>>, samples: seq<real>)
    requires multiset(samples) == multiset(Flatten(parts))
    ensures MergeAll(parts) == DigestOf(samples)
  {
    MergeAllFlattens(parts);
    DigestPermutes(samples, Flatten(parts));
  }

  lemma {:induction false} MergeAllFlattens(parts: seq<seq<real>>)
    ensures MergeAll(parts) == DigestOf(Flatten(parts))
  {
    if parts != [] {
      MergeAllFlattens(parts[..|parts| - 1]);
      DigestConcat(Flatten(parts[..|parts| - 1]), parts[|parts| - 1]);
    }
  }

  // ---------- Counts and ranks ----------

  /** The running total of the percentile loop: counts of the first k buckets. */
  function Cumulative(counts: seq<int>, k: nat): int
    requires k <= |counts|
  {
    if k == 0 then 0 else Cumulative(counts, k - 1) + counts[k - 1]
  }

  /** How many samples lie in the first k buckets. */
  function Below(s: seq<real>, k: nat): (n: nat)
    ensures n <= |s|
  {
    if s == [] then 0 else Below(s[..|s| - 1], k) + if Bucket(s[|s| - 1]) < k then 1 else 0
  }

  lemma {:induction false} CumulativeUpdate(counts: seq<int>, b: nat, k: nat)
    requires b < |counts| && k <= |counts|
    ensures Cumulative(counts[b := counts[b] + 1], k) == Cumulative(counts, k) + if b < k then 1 else 0
  {
    if k > 0 {
      CumulativeUpdate(counts, b, k - 1);
    }
  }

  lemma {:induction false} CumulativeOfZeros(k: nat)
    requires k <= BUCKETS
    ensures Cumulative(Empty().counts, k) == 0
  {
    if k > 0 {
      CumulativeOfZeros(k - 1);
    }
  }

  /** The counts of the first k buckets number the samples in them. */
  lemma {:induction false} CumulativeCounts(s: seq<real>, k: nat)
    requires k <= BUCKETS
    ensures Cumulative(DigestOf(s).counts, k) == Below(s, k)
  {
    if s == [] {
      CumulativeOfZeros(k);
    } else {
      CumulativeCounts(s[..|s| - 1], k);
      CumulativeUpdate(DigestOf(s[..|s| - 1]).counts, Bucket(s[|s| - 1]), k);
    }
  }

  lemma {:induction false} AllBelow(s: seq<real>, k: nat)
    requires forall x <- s :: Bucket(x) < k
    ensures Below(s, k) == |s|
  {
    if s != [] {
      AllBelow(s[..|s| - 1], k);
    }
  }

  /** hist.total, the number of samples and the sum of the bucket counts agree. */
  lemma {:induction false} CountsSumToTotal(s: seq<real>)
    ensures Cumulative(DigestOf(s).counts, BUCKETS) == DigestOf(s).total == |s|
  {
    CumulativeCounts(s, BUCKETS);
    AllBelow(s, BUCKETS);
  }

  // ---------- Extremes ----------

  function MinOf(s: seq<real>): real {
    if s == [] then MAX_FLOAT64 else Less(MinOf(s[..|s| - 1]), s[|s| - 1])
  }

  function MaxOf(s: seq<real>): real {
    if s == [] then 0.0 else Greater(MaxOf(s[..|s| - 1]), s[|s| - 1])
  }

  lemma {:induction false} ExtremesHeld(s: seq<real>)
    ensures DigestOf(s).min == MinOf(s) && DigestOf(s).max == MaxOf(s)
  {
    if s != [] {
      ExtremesHeld(s[..|s| - 1]);
    }
  }

  lemma {:induction false} MinMaxCover(s: seq<real>, x: real)
    requires x in s
    ensures MinOf(s) <= x <= MaxOf(s)
  {
    if x != s[|s| - 1] {
      assert x in s[..|s| - 1];
      MinMaxCover(s[..|s| - 1], x);
    }
  }

  lemma {:induction false} MinMaxAttained(s: seq<real>)
    requires s != [] && forall x <- s :: 0.0 <= x <= MAX_FLOAT64
    ensures MinOf(s) in s && MaxOf(s) in s
  {
    var s', x := s[..|s| - 1], s[|s| - 1];
    assert x in s && forall y <- s' :: y in s;
    if s' != [] {
      MinMaxAttained(s');
    }
  }

  /** Every sample lies between the reported extremes, and of nonnegative samples within the float
      range these are the least and the greatest sample. */
  lemma {:induction false} ExtremesAreExact(s: seq<real>)
    ensures forall x <- s :: DigestOf(s).min <= x <= DigestOf(s).max
    ensures s != [] && (forall x <- s :: 0.0 <= x <= MAX_FLOAT64) ==> DigestOf(s).min in s && DigestOf(s).max in s
  {
    ExtremesHeld(s);
    forall x <- s ensures MinOf(s) <= x <= MaxOf(s) {
      MinMaxCover(s, x);
    }
    if s != [] && forall x <- s :: 0.0 <= x <= MAX_FLOAT64 {
      MinMaxAttained(s);
    }
  }

  // ---------- Sums ----------

  function Sum(s: seq<real>): real {
    if s == [] then 0.0 else Sum(s[..|s| - 1]) + s[|s| - 1]
  }

  function SumOfSquares(s: seq<real>): real {
    if s == [] then 0.0 else SumOfSquares(s[..|s| - 1]) + s[|s| - 1] * s[|s| - 1]
  }

  lemma {:induction false} SumsHeld(s: seq<real>)
    ensures DigestOf(s).sum == Sum(s) && DigestOf(s).sumSq == SumOfSquares(s)
  {
    if s != [] {
      SumsHeld(s[..|s| - 1]);
    }
  }
}
