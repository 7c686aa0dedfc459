/** The exact latency accumulator of benchmarks/write_benchmark.py. */
module Tracker {
  import opened Percentiles

  /** i is the lesser of floor(n*p/100) and n-1. */
  predicate IsIndex(i: nat, n: nat, p: real) {
    i < n && (100 * i) as real <= n as real * p && (i < n - 1 ==> n as real * p < (100 * (i + 1)) as real)
  }

  class LatencyTracker {
    var samples: seq<real>  // milliseconds
    var ops: int
    var errors: int
    var bytes: int

    constructor ()
      ensures samples == [] && ops == errors == bytes == 0
    {
      samples, ops, errors, bytes := [], 0, 0, 0;
    }

    /** One sample for each recorded operation. */
    ghost predicate Valid()
      reads this
    {
      ops == |samples|
    }

    method Record(latencySeconds: real, payloadBytes: int)
      requires Valid()
      modifies this
      ensures Valid() && samples == old(samples) + [latencySeconds * 1000.0]
      ensures bytes == old(bytes) + payloadBytes && errors == old(errors)
    {
      samples := samples + [latencySeconds * 1000.0];
      ops := ops + 1;
      bytes := bytes + payloadBytes;
    }

    method RecordError()
      requires Valid()
      modifies this
      ensures Valid() && samples == old(samples) && bytes == old(bytes) && errors == old(errors) + 1
    {
      errors := errors + 1;
    }

    /** Taking both locks, a tracker cannot merge itself. */
    method Merge(other: LatencyTracker)
      requires Valid() && other.Valid() && other != this
      modifies this
      ensures Valid() && samples == old(samples) + other.samples
      ensures errors == old(errors) + other.errors && bytes == old(bytes) + other.bytes
    {
      samples := samples + other.samples;
      ops := ops + other.ops;
      errors := errors + other.errors;
      bytes := bytes + other.bytes;
    }

    /** With i the lesser of floor(n*p/100) and n-1: the one sample that at least i+1 samples are at most,
        and that at least n-i samples are at least. */
    method Percentile(p: real) returns (r: real)
      requires p >= 0.0
      ensures samples == [] ==> r == 0.0
      ensures samples != [] ==> IsAtRank(samples, TrackerIndex(|samples|, p), r)
      ensures samples != [] ==> exists i: nat :: IsIndex(i, |samples|, p) && IsAtRank(samples, i, r)
      ensures r == TrackerPercentile(samples, p)
    {
      if samples == [] {
        return 0.0;
      }
      SortRanks(samples, TrackerIndex(|samples|, p));
      TrackerIndexIs(|samples|, p, TrackerIndex(|samples|, p));
      assert IsIndex(TrackerIndex(|samples|, p), |samples|, p);
      var s := Sort(samples);
      r := s[TrackerIndex(|s|, p)];
    }
  }
}
