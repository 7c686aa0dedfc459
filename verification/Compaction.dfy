/** The bulk writer and the overwrite rounds of benchmarks/compaction_benchmark.py. */
module Compaction {
  import opened Keys

  type Store = map<string, string>
  type Batch = (nat, nat)  // indices from the first up to, not including, the second

  /** make_value: a run of 'G'. */
  function MakeValue(size: nat): (v: string)
    ensures |v| == size && forall c <- v :: c == 'G'
  {
    seq(size, _ => 'G')
  }

  // ---------- Splitting the keys into batches ----------

  /** Consecutive nonempty batches covering from..n, each of size indices except that the last may be shorter. */
  predicate Partition(batches: seq<Batch>, from: nat, n: nat, size: nat) {
    if batches == [] then from == n
    else
      var (start, end) := batches[0];
      start == from && start < end <= n && end - start <= size && (end < n ==> end - start == size)
      && Partition(batches[1..], end, n, size)
  }

  lemma {:induction false} PartitionSnoc(batches: seq<Batch>, from: nat, mid: nat, end: nat, size: nat)
    requires Partition(batches, from, mid, size) && (forall b <- batches :: b.1 - b.0 == size)
    requires mid < end && end - mid <= size
    ensures Partition(batches + [(mid, end)], from, end, size)
  {
    if batches == [] {
      assert batches + [(mid, end)] == [(mid, end)];
    } else {
      PartitionSnoc(batches[1..], batches[0].1, mid, end, size);
      assert (batches + [(mid, end)])[1..] == batches[1..] + [(mid, end)];
    }
  }

  predicate Holds(batches: seq<Batch>, k: nat, i: nat) {
    k < |batches| && batches[k].0 <= i < batches[k].1
  }

  lemma {:induction false} PartitionBounds(batches: seq<Batch>, from: nat, n: nat, size: nat, k: nat)
    requires Partition(batches, from, n, size) && k < |batches|
    ensures from <= batches[k].0 < batches[k].1 <= n && batches[k].1 - batches[k].0 <= size
  {
    if k > 0 {
      PartitionBounds(batches[1..], batches[0].1, n, size, k - 1);
    }
  }

  /** The batch of an index. */
  function BatchOf(batches: seq<Batch>, i: nat): nat {
    if batches == [] || i < batches[0].1 then 0 else 1 + BatchOf(batches[1..], i)
  }

  /** Every index from..n lies in one batch and in no other; no batch holds anything else. */
  lemma {:induction false} PartitionIsExact(batches: seq<Batch>, from: nat, n: nat, size: nat, k: nat, i: nat)
    requires Partition(batches, from, n, size)
    ensures Holds(batches, k, i) <==> from <= i < n && k == BatchOf(batches, i)
  {
    if batches != [] {
      var rest := batches[1..];
      if k > 0 {
        PartitionIsExact(rest, batches[0].1, n, size, k - 1, i);
        assert Holds(batches, k, i) <==> Holds(rest, k - 1, i);
      } else if i >= batches[0].1 {
        PartitionIsExact(rest, batches[0].1, n, size, 0, i);
      }
    }
  }

  /** The k-th batch starts at k times the batch size and ends a batch size later, or at n. */
  lemma {:induction false} BatchesAre(batches: seq<Batch>, from: nat, n: nat, size: nat, k: nat)
    requires Partition(batches, from, n, size) && k < |batches|
    ensures batches[k].0 == from + k * size
    ensures batches[k].1 == if from + (k + 1) * size < n then from + (k + 1) * size else n
  {
    if k > 0 {
      BatchesAre(batches[1..], batches[0].1, n, size, k - 1);
      assert batches[1..][k - 1] == batches[k];
      assert batches[0].1 < n by {
        PartitionBounds(batches[1..], batches[0].1, n, size, k - 1);
      }
      assert k * size == (k - 1) * size + size && (k + 1) * size == k * size + size;
    } else {
      assert (k + 1) * size == size;
    }
  }

  // ---------- What bulk_write stores ----------

  /** The store after the keys below n were written one by one, those in lost not reaching it. */
  function Filled(store: Store, n: nat, value: string, lost: set<nat>): Store {
    if n == 0 then store
    else
      var before := Filled(store, n - 1, value, lost);
      if n - 1 in lost then before else before[MakeKey(n - 1) := value]
  }

  /** Exactly the written keys have the new value; all others are as before. */
  lemma {:induction false} FilledIsExact(store: Store, n: nat, value: string, lost: set<nat>, key: string)
    ensures var after := Filled(store, n, value, lost);
            if exists i: nat :: i < n && i !in lost && key == MakeKey(i)
            then key in after && after[key] == value
            else (key in after <==> key in store) && (key in store ==> after[key] == store[key])
  {
    if n > 0 {
      FilledIsExact(store, n - 1, value, lost, key);
      if n - 1 !in lost && key == MakeKey(n - 1) {
      } else {
        assert forall i: nat :: i < n && i !in lost && key == MakeKey(i) ==> i < n - 1;
      }
    }
  }

  /** From an empty store, n writes make n different keys. */
  lemma {:induction false} FilledSize(n: nat, value: string)
    ensures |Filled(map[], n, value, {})| == n
  {
    if n > 0 {
      FilledSize(n - 1, value);
      var before := Filled(map[], n - 1, value, {});
      FilledIsExact(map[], n - 1, value, {}, MakeKey(n - 1));
      forall i: nat | i < n - 1 ensures MakeKey(i) != MakeKey(n - 1) {
        if MakeKey(i) == MakeKey(n - 1) {
          MakeKeyInjective(i, n - 1);
        }
      }
      assert MakeKey(n - 1) !in before;
    }
  }

  /** How many of these batches were refused. */
  function RefusedAmong(batches: seq<Batch>, refused: set<nat>): nat {
    if batches == [] then 0
    else RefusedAmong(batches[..|batches| - 1], refused) + if batches[|batches| - 1].0 in refused then 1 else 0
  }

  /** They are as many as there are batches among the refused. */
  lemma {:induction false} RefusedIsCount(batches: seq<Batch>, refused: set<nat>)
    ensures RefusedAmong(batches, refused) == |set k: nat | k < |batches| && IsRefused(batches, refused, k)|
  {
    if batches != [] {
      var n := |batches| - 1;
      RefusedIsCount(batches[..n], refused);
      var before := set k: nat | k < n && IsRefused(batches[..n], refused, k);
      var all := set k: nat | k < |batches| && IsRefused(batches, refused, k);
      assert all == if batches[n].0 in refused then before + {n} else before;
    } else {
      assert (set k: nat | k < |batches| && IsRefused(batches, refused, k)) == {};
    }
  }

  predicate IsRefused(batches: seq<Batch>, refused: set<nat>, k: nat) {
    k < |batches| && batches[k].0 in refused
  }

  /** The keys of one batch, in the middle of a bulk write. */
  method WriteBatch(store: Store, before: Store, batch: Batch, value: string, lost: set<nat>) returns (after: Store)
    requires batch.0 <= batch.1 && before == Filled(store, batch.0, value, lost)
    ensures after == Filled(store, batch.1, value, lost)
  {
    after := before;
    for i := batch.0 to batch.1
      invariant after == Filled(store, i, value, lost)
    {
      if i !in lost {
        after := after[MakeKey(i) := value];
      }
    }
  }

  /** How far the batches written so far reach. */
  function Reach(batches: seq<Batch>): nat {
    if batches == [] then 0 else batches[|batches| - 1].1
  }

  /** bulk_write. The environment decides which batches raise a VeltrixDBError (by their first index),
      which raise anything else, and which keys do not reach the store. The former are counted as errors
      and skipped over; the latter end the loop. */
  method BulkWrite(store: Store, numKeys: nat, value: string, batchSize: nat,
                   refused: set<nat>, fatal: set<nat>, lost: set<nat>)
    returns (after: Store, errors: nat, batches: seq<Batch>, raised: bool)
    requires batchSize > 0
    ensures Partition(batches, 0, Reach(batches), batchSize)
    ensures raised <==> exists b <- batches :: b.0 in fatal
    ensures !raised ==> Reach(batches) == numKeys
    ensures forall k :: 0 <= k < |batches| - 1 ==> batches[k].0 !in fatal
    ensures after == Filled(store, Reach(batches), value, lost)
    ensures errors == RefusedAmong(batches, refused - fatal)
  {
    after, errors, batches, raised := store, 0, [], false;
    var start := 0;
    while start < numKeys
      invariant Reach(batches) == if start < numKeys then start else numKeys
      invariant start < numKeys ==> forall b <- batches :: b.1 - b.0 == batchSize
      invariant forall b <- batches :: b.0 !in fatal
      invariant Partition(batches, 0, Reach(batches), batchSize)
      invariant after == Filled(store, Reach(batches), value, lost)
      invariant errors == RefusedAmong(batches, refused - fatal)
    {
      var end := if start + batchSize < numKeys then start + batchSize else numKeys;
      ghost var sofar := batches;
      after := WriteBatch(store, after, (start, end), value, lost);
      PartitionSnoc(batches, 0, start, end, batchSize);
      batches := batches + [(start, end)];
      assert batches[..|sofar|] == sofar;
      if start in fatal {
        assert batches[|sofar|] in batches;
        raised := true;
        return;
      }
      if start in refused {
        errors := errors + 1;
      }
      start := start + batchSize;
    }
  }

  // ---------- The fill and the overwrite rounds ----------

  /** The store after the fill and the given number of overwrite rounds, nothing being lost. */
  function Overwritten(store: Store, numKeys: nat, valueSize: nat, rounds: nat): Store {
    if rounds == 0 then Filled(store, numKeys, MakeValue(valueSize), {})
    else Filled(Overwritten(store, numKeys, valueSize, rounds - 1), numKeys, MakeValue(valueSize + rounds), {})
  }

  /** Phases 1 and 2 of main, when every batch and entry succeeds. */
  method FillAndOverwrite(store: Store, numKeys: nat, valueSize: nat, batchSize: nat, rounds: nat)
    returns (after: Store, errors: nat)
    requires batchSize > 0
    ensures after == Overwritten(store, numKeys, valueSize, rounds)
    ensures errors == 0
  {
    var batches, raised;
    after, errors, batches, raised := BulkWrite(store, numKeys, MakeValue(valueSize), batchSize, {}, {}, {});
    NoneRefused(batches, {} - {});
    for rnd := 1 to rounds + 1
      invariant after == Overwritten(store, numKeys, valueSize, rnd - 1)
      invariant errors == 0
    {
      var errs;
      after, errs, batches, raised := BulkWrite(after, numKeys, MakeValue(valueSize + rnd), batchSize, {}, {}, {});
      NoneRefused(batches, {} - {});
      errors := errors + errs;
    }
  }

  lemma {:induction false} NoneRefused(batches: seq<Batch>, refused: set<nat>)
    requires refused == {}
    ensures RefusedAmong(batches, refused) == 0
  {
    if batches != [] {
      NoneRefused(batches[..|batches| - 1], refused);
    }
  }

  lemma {:induction false} RefillKeepsKeys(store: Store, n: nat, value: string)
    requires forall i: nat :: i < n ==> MakeKey(i) in store
    ensures Filled(store, n, value, {}).Keys == store.Keys
  {
    forall key ensures key in Filled(store, n, value, {}) <==> key in store {
      FilledIsExact(store, n, value, {}, key);
    }
  }

  /** After r rounds from an empty store there are exactly numKeys keys, the benchmark's, each with a
      value of length valueSize + r. */
  lemma {:induction false} RoundsKeepTheKeys(numKeys: nat, valueSize: nat, rounds: nat)
    ensures var after := Overwritten(map[], numKeys, valueSize, rounds);
            && |after| == numKeys
            && (forall i: nat :: i < numKeys ==> MakeKey(i) in after)
            && (forall key <- after :: |after[key]| == valueSize + rounds)
  {
    var before := if rounds == 0 then map[] else Overwritten(map[], numKeys, valueSize, rounds - 1);
    var value := MakeValue(valueSize + rounds);
    var after := Overwritten(map[], numKeys, valueSize, rounds);
    assert after == Filled(before, numKeys, value, {});
    if rounds == 0 {
      FilledSize(numKeys, value);
    } else {
      RoundsKeepTheKeys(numKeys, valueSize, rounds - 1);
      RefillKeepsKeys(before, numKeys, value);
      assert |after.Keys| == |before.Keys|;
    }
    forall i: nat | i < numKeys ensures MakeKey(i) in after {
      FilledIsExact(before, numKeys, value, {}, MakeKey(i));
    }
    forall key <- after ensures |after[key]| == valueSize + rounds {
      FilledIsExact(before, numKeys, value, {}, key);
      if rounds > 0 {
        KeysAreBenchmarkKeys(numKeys, valueSize, rounds - 1, key);
      }
    }
  }

  lemma {:induction false} KeysAreBenchmarkKeys(numKeys: nat, valueSize: nat, rounds: nat, key: string)
    requires key in Overwritten(map[], numKeys, valueSize, rounds)
    ensures exists i: nat :: i < numKeys && key == MakeKey(i)
  {
    var before := if rounds == 0 then map[] else Overwritten(map[], numKeys, valueSize, rounds - 1);
    FilledIsExact(before, numKeys, MakeValue(valueSize + rounds), {}, key);
    if rounds > 0 && !exists i: nat :: i < numKeys && key == MakeKey(i) {
      KeysAreBenchmarkKeys(numKeys, valueSize, rounds - 1, key);
    }
  }
}
