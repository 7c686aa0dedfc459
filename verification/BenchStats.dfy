/** The Histogram and Stats objects of dbbench/stats.go. */
module BenchStats {
  import opened Buckets
  import opened Digests
  import opened Percentiles
  import opened Moments

  lemma AddedLast(s: seq<real>, x: real)
    ensures DigestOf(s + [x]) == AddTo(DigestOf(s), x)
  {
    assert (s + [x])[..|s + [x]| - 1] == s;
  }

  class Histogram {
    const counts: array<int>
    var min: real
    var max: real
    var sum: real
    var sumSq: real
    var total: int
    ghost var samples: seq<real>  // everything added, directly or by merging

    function View(): Digest
      reads this, counts
    {
      Digest(counts[..], total, sum, sumSq, min, max)
    }

    ghost predicate Valid()
      reads this, counts
    {
      counts.Length == BUCKETS && View() == DigestOf(samples)
    }

    constructor ()
      ensures Valid() && samples == [] && total == 0 && fresh(counts)
    {
      counts := new int[BUCKETS](_ => 0);
      min, max, sum, sumSq, total := MAX_FLOAT64, 0.0, 0.0, 0.0, 0;
      samples := [];
      new;
      assert counts[..] == Empty().counts;
    }

    /** The bucket index add searches for by bisection. */
    static method Search(us: real) returns (lo: nat)
      ensures lo == Bucket(us)
    {
      var hi := COUNT;
      lo := 0;
      while lo < hi
        invariant lo <= hi <= COUNT
        invariant lo > 0 ==> Bound(lo - 1) <= us
        invariant hi < COUNT ==> us < Bound(hi)
      {
        var mid := (lo + hi) / 2;
        if us < Bound(mid) {
          hi := mid;
        } else {
          lo := mid + 1;
        }
      }
      BucketIsUnique(us, lo);
    }

    /** add: one more sample. */
    method Add(us: real)
      requires Valid()
      modifies this, counts
      ensures Valid() && samples == old(samples) + [us] && total == old(total) + 1
    {
      ghost var d := View();
      total := total + 1;
      sum := sum + us;
      sumSq := sumSq + us * us;
      if us < min {
        min := us;
      }
      if us > max {
        max := us;
      }
      Count(us);
      samples := samples + [us];
      assert View() == AddTo(d, us);
      AddedLast(old(samples), us);
    }

    /** The last part of add: one more in the bucket of us. */
    method Count(us: real)
      requires counts.Length == BUCKETS
      modifies counts
      ensures counts[..] == old(counts[..])[Bucket(us) := old(counts[Bucket(us)]) + 1]
    {
      var lo := Search(us);
      counts[lo] := counts[lo] + 1;
    }

    /** merge: afterwards this histogram is the one fed both sets of samples, even if other is this. */
    method Merge(other: Histogram)
      requires Valid() && other.Valid()
      modifies this, counts
      ensures Valid() && samples == old(samples) + old(other.samples) && total == old(total) + old(other.total)
    {
      ghost var d, e, s, t := View(), other.View(), samples, other.samples;
      AddCounts(other.counts);
      if other.min < min {
        min := other.min;
      }
      if other.max > max {
        max := other.max;
      }
      sum := sum + other.sum;
      sumSq := sumSq + other.sumSq;
      total := total + other.total;
      samples := s + t;
      assert View() == Merged(d, e);
      DigestConcat(s, t);
    }

    /** The loop of merge. */
    method AddCounts(others: array<int>)
      requires counts.Length == others.Length
      modifies counts
      ensures |counts[..]| == |old(counts[..])|
      ensures forall j :: 0 <= j < counts.Length ==> counts[j] == old(counts[j]) + old(others[j])
    {
      for i := 0 to counts.Length
        invariant forall j :: 0 <= j < i ==> counts[j] == old(counts[j]) + old(others[j])
        invariant forall j :: i <= j < counts.Length ==> counts[j] == old(counts[j]) && others[j] == old(others[j])
      {
        counts[i] := counts[i] + others[i];
      }
    }

    /** The first bucket at which the running count reaches a threshold, or BUCKETS if none does. */
    method FirstReaching(threshold: int) returns (b: nat)
      requires counts.Length == BUCKETS
      ensures b <= BUCKETS
      ensures forall k :: 0 < k <= b ==> Cumulative(counts[..], k) < threshold
      ensures b < BUCKETS ==> Cumulative(counts[..], b + 1) >= threshold
    {
      var cumulative := 0;
      for i := 0 to counts.Length
        invariant cumulative == Cumulative(counts[..], i)
        invariant forall k :: 0 < k <= i ==> Cumulative(counts[..], k) < threshold
      {
        cumulative := cumulative + counts[i];
        if cumulative >= threshold {
          return i;
        }
      }
      b := BUCKETS;
    }

    /** percentile, for any p: between 0 and 100 the largest boundary reached by the one sample that p
        percent of the samples are at most; 0 for lower p, the maximum for higher. */
    method Percentile(p: real) returns (r: real)
      requires Valid()
      ensures r == PercentileOf(samples, p)
      ensures samples == [] || p <= 0.0 ==> r == 0.0
      ensures samples != [] && p > 100.0 ==> r == max
      ensures samples != [] && 0.0 < p <= 100.0 ==>
                var x := RankSample(samples, p);
                IsPercentileSample(samples, p, x) && r == LowerEdge(Bucket(x)) && IsFloor(x, r)
    {
      if samples != [] && 0.0 < p <= 100.0 {
        RankSampleByCounting(samples, p);
        EdgeIsFloor(RankSample(samples, p));
      }
      if total == 0 {
        return 0.0;
      }
      var i := FirstReaching(Threshold(total, p));
      assert counts[..] == DigestOf(samples).counts && total == |samples|;
      FirstReachingBucket(samples, p, i);
      if i < counts.Length {
        r := LowerEdge(i);
      } else {
        r := max;
      }
    }

    method Average() returns (r: real)
      requires Valid()
      ensures r == Moments.Average(View())
      ensures samples == [] ==> r == 0.0
      ensures samples != [] ==> IsMean(samples, r) && min <= r <= max
    {
      if samples != [] {
        AverageIsBetween(samples);
        AverageIsMean(samples);
      }
      if total == 0 {
        return 0.0;
      }
      r := sum / total as real;
    }

    /** stddev up to its square root: the clamp changes nothing. */
    method Variance() returns (r: real)
      requires Valid()
      ensures r >= 0.0
      ensures r == if total == 0 then 0.0 else RawVariance(View())
      ensures samples != [] ==> IsVariance(samples, r)
    {
      if total == 0 {
        return 0.0;
      }
      VarianceIsNonnegative(samples);
      VarianceIsMeanSquare(samples);
      r := RawVariance(View());
      if r < 0.0 {
        r := 0.0;
      }
    }
  }

  // ---------- Per-thread statistics ----------

  /** What a Stats object records, its histogram given by its samples. */
  datatype Tally = Tally(ops: int, errors: int, found: int, notFound: int, bytes: int, samples: seq<real>)

  function NoTally(): Tally { Tally(0, 0, 0, 0, 0, []) }

  /** recordOp converts nanoseconds to microseconds. */
  function OpRecorded(v: Tally, ns: int, payload: int): Tally {
    v.(ops := v.ops + 1, bytes := v.bytes + payload, samples := v.samples + [ns as real / 1000.0])
  }

  function TallyMerged(v: Tally, w: Tally): Tally {
    Tally(v.ops + w.ops, v.errors + w.errors, v.found + w.found, v.notFound + w.notFound, v.bytes + w.bytes,
          v.samples + w.samples)
  }

  function TallyAll(vs: seq<Tally>): Tally {
    if vs == [] then NoTally() else TallyMerged(TallyAll(vs[..|vs| - 1]), vs[|vs| - 1])
  }

  // ---------- What is recorded, told without the functions above ----------

  /** One more operation, its payload, and a sample that is its nanoseconds divided by 1000. */
  ghost predicate OneMore(before: Tally, after: Tally, ns: int, payload: int) {
    && after.ops == before.ops + 1 && after.bytes == before.bytes + payload
    && after.errors == before.errors && after.found == before.found && after.notFound == before.notFound
    && |after.samples| == |before.samples| + 1 && after.samples[..|before.samples|] == before.samples
    && 1000.0 * after.samples[|before.samples|] == ns as real
  }

  /** The tally of operations recorded one after another, each with its nanoseconds and payload. */
  function TallyOf(ops: seq<(int, int)>): Tally {
    if ops == [] then NoTally()
    else OpRecorded(TallyOf(ops[..|ops| - 1]), ops[|ops| - 1].0, ops[|ops| - 1].1)
  }

  function TallyEach(parts: seq<seq<(int, int)>>): (r: seq<Tally>)
    ensures |r| == |parts| && forall i :: 0 <= i < |r| ==> r[i] == TallyOf(parts[i])
  {
    seq(|parts|, i requires 0 <= i < |parts| => TallyOf(parts[i]))
  }

  /** All nanoseconds and all payloads. */
  function Nanoseconds(ops: seq<(int, int)>): int {
    if ops == [] then 0 else Nanoseconds(ops[..|ops| - 1]) + ops[|ops| - 1].0
  }

  function Payloads(ops: seq<(int, int)>): int {
    if ops == [] then 0 else Payloads(ops[..|ops| - 1]) + ops[|ops| - 1].1
  }

  function Joined<T>(parts: seq<seq<T>>): seq<T> {
    if parts == [] then [] else Joined(parts[..|parts| - 1]) + parts[|parts| - 1]
  }

  lemma Thousandth(ns: int)
    ensures 1000.0 * (ns as real / 1000.0) == ns as real
  {
  }

  lemma RecordedIsOneMore(v: Tally, ns: int, payload: int)
    ensures OneMore(v, OpRecorded(v, ns, payload), ns, payload)
  {
    Thousandth(ns);
  }

  lemma SumSnoc(s: seq<real>, x: real)
    ensures Sum(s + [x]) == Sum(s) + x
  {
    assert (s + [x])[..|s|] == s;
  }

  /** The sums of a tally are those of these operations. */
  ghost predicate HasSums(v: Tally, ops: seq<(int, int)>) {
    && v.ops == |ops| == |v.samples| && v.bytes == Payloads(ops)
    && 1000.0 * Sum(v.samples) == Nanoseconds(ops) as real
  }

  lemma RecordHasSums(v: Tally, ops: seq<(int, int)>, ns: int, payload: int)
    requires HasSums(v, ops)
    ensures HasSums(OpRecorded(v, ns, payload), ops + [(ns, payload)])
  {
    assert (ops + [(ns, payload)])[..|ops|] == ops;
    Thousandth(ns);
    SumSnoc(v.samples, ns as real / 1000.0);
  }

  /** A list of operations leaves a sample of ns/1000 for each, in order, and the sum of all payloads. */
  lemma {:induction false} OpsRecorded(ops: seq<(int, int)>)
    ensures var v := TallyOf(ops);
            && v.ops == |ops| == |v.samples| && v.errors == 0 && v.found == 0 && v.notFound == 0
            && (forall i :: 0 <= i < |ops| ==> 1000.0 * v.samples[i] == ops[i].0 as real)
            && v.bytes == Payloads(ops)
  {
    OpsHaveSums(ops);
    if ops != [] {
      OpsRecorded(ops[..|ops| - 1]);
      Thousandth(ops[|ops| - 1].0);
    }
  }

  lemma {:induction false} OpsHaveSums(ops: seq<(int, int)>)
    ensures HasSums(TallyOf(ops), ops)
  {
    if ops != [] {
      var ops', last := ops[..|ops| - 1], ops[|ops| - 1];
      OpsHaveSums(ops');
      RecordHasSums(TallyOf(ops'), ops', last.0, last.1);
      assert ops' + [(last.0, last.1)] == ops;
    }
  }

  lemma MergeHasSums(v: Tally, ops: seq<(int, int)>, w: Tally, more: seq<(int, int)>)
    requires HasSums(v, ops) && HasSums(w, more)
    ensures HasSums(TallyMerged(v, w), ops + more)
  {
    SumsJoin(ops, more);
    SumJoins(v.samples, w.samples);
  }

  lemma {:induction false} SumsJoin(ops: seq<(int, int)>, more: seq<(int, int)>)
    ensures Nanoseconds(ops + more) == Nanoseconds(ops) + Nanoseconds(more)
    ensures Payloads(ops + more) == Payloads(ops) + Payloads(more)
  {
    if more == [] {
      assert ops + more == ops;
    } else {
      SumsJoin(ops, more[..|more| - 1]);
      assert (ops + more)[..|ops + more| - 1] == ops + more[..|more| - 1];
    }
  }

  lemma {:induction false} SumJoins(s: seq<real>, t: seq<real>)
    ensures Sum(s + t) == Sum(s) + Sum(t)
  {
    if t == [] {
      assert s + t == s;
    } else {
      SumJoins(s, t[..|t| - 1]);
      assert (s + t)[..|s + t| - 1] == s + t[..|t| - 1];
    }
  }

  /** However operations are spread over threads, the merged statistics count them all, hold a sample for
      each and the sums of all nanoseconds and payloads. */
  lemma {:induction false} MergedOpsRecorded(parts: seq<seq<(int, int)>>)
    ensures var r, all := TallyAll(TallyEach(parts)), Joined(parts);
            && r.ops == |all| == |r.samples| && r.bytes == Payloads(all)
            && 1000.0 * DigestOf(r.samples).sum == Nanoseconds(all) as real
  {
    MergedSums(parts);
    SumsHeld(TallyAll(TallyEach(parts)).samples);
  }

  lemma {:induction false} MergedSums(parts: seq<seq<(int, int)>>)
    ensures HasSums(TallyAll(TallyEach(parts)), Joined(parts))
  {
    if parts != [] {
      var n := |parts| - 1;
      MergedSums(parts[..n]);
      OpsHaveSums(parts[n]);
      assert TallyEach(parts)[..n] == TallyEach(parts[..n]);
      MergeHasSums(TallyAll(TallyEach(parts[..n])), Joined(parts[..n]), TallyOf(parts[n]), parts[n]);
    }
  }

  /** The total of one field over all threads. */
  function Total(vs: seq<Tally>, field: Tally -> int): int {
    if vs == [] then 0 else Total(vs[..|vs| - 1], field) + field(vs[|vs| - 1])
  }

  /** Every merged counter is the sum of the counters of all threads. */
  lemma {:induction false} MergedCountsAddUp(vs: seq<Tally>)
    ensures var r := TallyAll(vs);
            && r.ops == Total(vs, (v: Tally) => v.ops) && r.errors == Total(vs, (v: Tally) => v.errors)
            && r.found == Total(vs, (v: Tally) => v.found) && r.notFound == Total(vs, (v: Tally) => v.notFound)
            && r.bytes == Total(vs, (v: Tally) => v.bytes)
  {
    if vs != [] {
      MergedCountsAddUp(vs[..|vs| - 1]);
    }
  }

  class Stats {
    var ops: int
    var errors: int
    var found: int
    var notFound: int
    var bytes: int
    const hist: Histogram

    ghost function View(): Tally
      reads this, hist
    {
      Tally(ops, errors, found, notFound, bytes, hist.samples)
    }

    /** The histogram holds one sample for each recorded operation. */
    ghost predicate Valid()
      reads this, hist, hist.counts
    {
      hist.Valid() && hist.total == ops
    }

    constructor ()
      ensures Valid() && View() == NoTally() && fresh(hist) && fresh(hist.counts)
    {
      ops, errors, found, notFound, bytes := 0, 0, 0, 0, 0;
      hist := new Histogram();
    }

    method RecordOp(ns: int, payload: int)
      requires Valid()
      modifies this, hist, hist.counts
      ensures Valid() && View() == OpRecorded(old(View()), ns, payload)
      ensures OneMore(old(View()), View(), ns, payload)
    {
      RecordedIsOneMore(View(), ns, payload);
      var us := ns as real / 1000.0;
      ops := ops + 1;
      bytes := bytes + payload;
      hist.Add(us);
    }

    method RecordFound()
      requires Valid()
      modifies this`found
      ensures Valid() && View() == old(View()).(found := old(found) + 1)
    {
      found := found + 1;
    }

    method RecordNotFound()
      requires Valid()
      modifies this`notFound
      ensures Valid() && View() == old(View()).(notFound := old(notFound) + 1)
    {
      notFound := notFound + 1;
    }

    method RecordError()
      requires Valid()
      modifies this`errors
      ensures Valid() && View() == old(View()).(errors := old(errors) + 1)
    {
      errors := errors + 1;
    }

    method Merge(other: Stats)
      requires Valid() && other.Valid()
      modifies this, hist, hist.counts
      ensures Valid() && View() == TallyMerged(old(View()), old(other.View()))
    {
      ops := ops + other.ops;
      errors := errors + other.errors;
      found := found + other.found;
      notFound := notFound + other.notFound;
      bytes := bytes + other.bytes;
      hist.Merge(other.hist);
    }
  }

  /** The aggregation at the end of runParallel. */
  method MergePerThread(perThread: seq<Stats>, ghost tallies: seq<Tally>) returns (merged: Stats)
    requires forall s <- perThread :: s.Valid()
    requires |tallies| == |perThread| && forall i :: 0 <= i < |perThread| ==> perThread[i].View() == tallies[i]
    ensures merged.Valid() && fresh(merged) && merged.View() == TallyAll(tallies)
    ensures forall parts :: tallies == TallyEach(parts) ==>
              HasSums(merged.View(), Joined(parts)) && 1000.0 * merged.hist.sum == Nanoseconds(Joined(parts)) as real
  {
    merged := new Stats();
    for i := 0 to |perThread|
      invariant merged.Valid() && fresh(merged) && fresh(merged.hist) && fresh(merged.hist.counts)
      invariant merged.View() == TallyAll(tallies[..i])
    {
      merged.Merge(perThread[i]);
      assert tallies[..i + 1][..i] == tallies[..i];
    }
    assert tallies[..|perThread|] == tallies;
    SumsHeld(merged.hist.samples);
    assert merged.hist.View().sum == Sum(merged.hist.samples);
    forall parts | tallies == TallyEach(parts) ensures HasSums(merged.View(), Joined(parts)) {
      MergedSums(parts);
    }
  }
}
