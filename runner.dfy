/** One run of the benchmark, executed sequentially: the counters behind the
    locks, the reader and writer workers, and the consistency check that ends
    the run. Which lock implementation guards the counters does not change
    what a run computes, so a lock is its counter here and a `read` or a
    `write(f)` is one access to that counter. */
module Runner {
  import opened Base
  import opened Bits
  import opened Workload

  /** `*cnt += 1` in a release build. */
  function Increment(cnt: u32): (r: u32)
    ensures r == (cnt + 1) % U32_MODULUS
  {
    WrappingAdd(cnt, 1)
  }

  predicate InBounds(indexes: seq<nat>, n: nat)
  {
    forall k :: 0 <= k < |indexes| ==> indexes[k] < n
  }

  /** The counters after `write(|cnt| *cnt += 1)` on each lock of `indexes`,
      in order. */
  function ApplyWrites(counters: seq<u32>, indexes: seq<nat>): (r: seq<u32>)
    requires InBounds(indexes, |counters|)
    ensures |r| == |counters|
  {
    if indexes == [] then counters
    else
      var before := ApplyWrites(counters, indexes[..|indexes| - 1]);
      var i := indexes[|indexes| - 1];
      before[i := Increment(before[i])]
  }

  /** Every counter has grown, modulo 2^32, by the number of writes to it. */
  lemma {:induction false} ApplyWritesAt(counters: seq<u32>, indexes: seq<nat>, j: nat)
    requires InBounds(indexes, |counters|) && j < |counters|
    ensures ApplyWrites(counters, indexes)[j] == (counters[j] + multiset(indexes)[j]) % U32_MODULUS
  {
    if indexes != [] {
      var n := |indexes| - 1;
      assert indexes == indexes[..n] + [indexes[n]];
      ApplyWritesAt(counters, indexes[..n], j);
      ModAddLeft(counters[j] + multiset(indexes[..n])[j], 1);
    }
  }

  /** A counter that no write names keeps its value. */
  lemma ApplyWritesUntouched(counters: seq<u32>, indexes: seq<nat>, j: nat)
    requires InBounds(indexes, |counters|) && j < |counters| && j !in indexes
    ensures ApplyWrites(counters, indexes)[j] == counters[j]
  {
    ApplyWritesAt(counters, indexes, j);
  }

  /** Increments commute: any order of the same writes, such as any
      interleaving of the writer threads, leaves the same counters. */
  lemma WriteOrderIrrelevant(counters: seq<u32>, xs: seq<nat>, ys: seq<nat>)
    requires InBounds(xs, |counters|) && InBounds(ys, |counters|)
    requires multiset(xs) == multiset(ys)
    ensures ApplyWrites(counters, xs) == ApplyWrites(counters, ys)
  {
    var rx, ry := ApplyWrites(counters, xs), ApplyWrites(counters, ys);
    forall j | 0 <= j < |counters|
      ensures rx[j] == ry[j]
    {
      ApplyWritesAt(counters, xs, j);
      ApplyWritesAt(counters, ys, j);
    }
  }

  lemma IncrementChangesSum(s: seq<u32>, i: nat)
    requires i < |s|
    ensures Sum(s[i := Increment(s[i])]) % U32_MODULUS == (Sum(s) + 1) % U32_MODULUS
  {
    SumUpdate(s, i, Increment(s[i]));
  }

  /** An increment raises the sum by one, or lowers it when it wraps. */
  lemma IncrementSumBound(s: seq<u32>, i: nat)
    requires i < |s|
    ensures Sum(s[i := Increment(s[i])]) <= Sum(s) + 1
  {
    SumUpdate(s, i, Increment(s[i]));
  }

  /** Each write raises the sum of the counters by one, modulo 2^32. */
  lemma {:induction false} ApplyWritesSum(counters: seq<u32>, indexes: seq<nat>)
    requires InBounds(indexes, |counters|)
    ensures Sum(ApplyWrites(counters, indexes)) % U32_MODULUS == (Sum(counters) + |indexes|) % U32_MODULUS
  {
    if indexes != [] {
      var n := |indexes| - 1;
      var before := ApplyWrites(counters, indexes[..n]);
      ApplyWritesSum(counters, indexes[..n]);
      IncrementChangesSum(before, indexes[n]);
      ModAddLeft(Sum(before), 1);
      ModAddLeft(Sum(counters) + n, 1);
    }
  }

  /** No sequence of writes raises the sum by more than its length. */
  lemma {:induction false} ApplyWritesSumBound(counters: seq<u32>, indexes: seq<nat>)
    requires InBounds(indexes, |counters|)
    ensures Sum(ApplyWrites(counters, indexes)) <= Sum(counters) + |indexes|
  {
    if indexes != [] {
      var n := |indexes| - 1;
      ApplyWritesSumBound(counters, indexes[..n]);
      IncrementSumBound(ApplyWrites(counters, indexes[..n]), indexes[n]);
    }
  }

  /** While it stays below 2^32, the sum grows by exactly one per write. */
  lemma ApplyWritesSumExact(counters: seq<u32>, indexes: seq<nat>)
    requires InBounds(indexes, |counters|)
    requires Sum(counters) + |indexes| < U32_MODULUS
    ensures Sum(ApplyWrites(counters, indexes)) == Sum(counters) + |indexes|
  {
    ApplyWritesSum(counters, indexes);
    ApplyWritesSumBound(counters, indexes);
    SumOfU32s(ApplyWrites(counters, indexes));
  }

  lemma ApplyWritesAppend(counters: seq<u32>, xs: seq<nat>, ys: seq<nat>)
    requires InBounds(xs, |counters|) && InBounds(ys, |counters|)
    ensures ApplyWrites(counters, xs + ys) == ApplyWrites(ApplyWrites(counters, xs), ys)
    decreases |ys|
  {
    if ys == [] {
      assert xs + ys == xs;
    } else {
      var n := |ys| - 1;
      assert (xs + ys)[..|xs + ys| - 1] == xs + ys[..n];
      ApplyWritesAppend(counters, xs, ys[..n]);
    }
  }

  function ZeroCounters(n: nat): (r: seq<u32>)
    ensures |r| == n && forall i :: 0 <= i < n ==> r[i] == 0
  {
    seq(n, _ => 0)
  }

  lemma {:induction false} SumZeroCounters(n: nat)
    ensures Sum(ZeroCounters(n)) == 0
  {
    if n > 0 {
      assert ZeroCounters(n)[..n - 1] == ZeroCounters(n - 1);
      SumZeroCounters(n - 1);
    }
  }

  /** `lock.read()`: the value of the counter behind lock `idx`. */
  method Read(locks: array<u32>, idx: nat) returns (v: u32)
    requires idx < locks.Length
    ensures v == locks[idx]
  {
    v := locks[idx];
  }

  /** `lock.write(f)`: `f` updates the counter behind lock `idx` in place. */
  method Write(locks: array<u32>, idx: nat, f: u32 -> u32)
    requires idx < locks.Length
    modifies locks
    ensures locks[..] == old(locks[..])[idx := f(old(locks[idx]))]
  {
    locks[idx] := f(locks[idx]);
  }

  /** A reader's loop: one `read` per index. It may not modify the locks, so
      every value it observes is the counter as it was. */
  method ReadLoop(locks: array<u32>, indexes: seq<nat>) returns (seen: seq<u32>)
    requires InBounds(indexes, locks.Length)
    ensures |seen| == |indexes|
    ensures forall k :: 0 <= k < |indexes| ==> seen[k] == locks[indexes[k]]
  {
    seen := [];
    for k := 0 to |indexes|
      invariant |seen| == k
      invariant forall m :: 0 <= m < k ==> seen[m] == locks[indexes[m]]
    {
      var v := Read(locks, indexes[k]);
      seen := seen + [v];
    }
  }

  /** A writer's loop: `write(|cnt| *cnt += 1)` once per index. */
  method WriteLoop(locks: array<u32>, indexes: seq<nat>)
    requires InBounds(indexes, locks.Length)
    modifies locks
    ensures locks[..] == ApplyWrites(old(locks[..]), indexes)
  {
    for k := 0 to |indexes|
      invariant locks[..] == ApplyWrites(old(locks[..]), indexes[..k])
    {
      assert indexes[..k + 1][..k] == indexes[..k];
      Write(locks, indexes[k], Increment);
    }
    assert indexes[..|indexes|] == indexes;
  }

  /** The summing loop after the end barrier: `total += lock.read()` on every
      lock, wrapping. */
  method SumCounters(locks: array<u32>) returns (total: u32)
    ensures total == Sum(locks[..]) % U32_MODULUS
  {
    total := 0;
    for k := 0 to locks.Length
      invariant total == Sum(locks[..k]) % U32_MODULUS
    {
      assert locks[..k + 1][..k] == locks[..k];
      var v := Read(locks, k);
      ModAddLeft(Sum(locks[..k]), v);
      total := WrappingAdd(total, v);
    }
    assert locks[..locks.Length] == locks[..];
  }

  /** Some worker draws a lock index while there are no locks. */
  predicate WorkerPanics(opts: Options)
  {
    opts.nLocks == 0 && ((opts.nReaders > 0 && opts.nReads > 0) || (opts.nWriters > 0 && opts.nWrites > 0))
  }

  /** The reader threads, one per seed, each reading `nReads` locks. They
      cannot modify the locks; they fail only by taking `% 0`. */
  method RunReaders(locks: array<u32>, seeds: seq<Word>, nReads: nat) returns (ok: bool)
    requires locks.Length < U32_MODULUS
    ensures ok <==> !(locks.Length == 0 && |seeds| > 0 && nReads > 0)
  {
    for t := 0 to |seeds|
      invariant !(locks.Length == 0 && t > 0 && nReads > 0)
    {
      var indexes := Indexes(seeds[t], locks.Length, nReads);
      if indexes.Err? {
        return false;
      }
      var seen := ReadLoop(locks, indexes.value);
    }
    return true;
  }

  /** One writer thread, from its seed: draw `nWrites` lock indexes and
      increment each. */
  method WriterThread(locks: array<u32>, seed: Word, nWrites: nat) returns (ok: bool, ghost indexes: seq<nat>)
    requires locks.Length < U32_MODULUS
    modifies locks
    ensures ok <==> !(locks.Length == 0 && nWrites > 0)
    ensures ok ==> Indexes(seed, locks.Length, nWrites) == Ok(indexes)
    ensures ok ==> InBounds(indexes, locks.Length) && |indexes| == nWrites
    ensures ok ==> locks[..] == ApplyWrites(old(locks[..]), indexes)
    ensures !ok ==> locks[..] == old(locks[..])
  {
    var drawn := Indexes(seed, locks.Length, nWrites);
    if drawn.Err? {
      return false, [];
    }
    WriteLoop(locks, drawn.value);
    return true, drawn.value;
  }

  /** The lock indexes of all writers, writer by writer: the concatenation
      of `Indexes(seeds[t], nLocks, nWrites)` over `t`, or the panic of the
      first writer that takes `% 0`. */
  function WriterIndexes(seeds: seq<Word>, nLocks: u32, nWrites: nat): (r: Result<seq<nat>>)
    ensures r.Err? <==> |seeds| > 0 && nWrites > 0 && nLocks == 0
    ensures r.Ok? ==> |r.value| == |seeds| * nWrites && InBounds(r.value, nLocks)
  {
    if seeds == [] then Ok([])
    else
      var before := WriterIndexes(seeds[..|seeds| - 1], nLocks, nWrites);
      var last := Indexes(seeds[|seeds| - 1], nLocks, nWrites);
      if before.Err? then before
      else if last.Err? then last
      else
        MulSucc(|seeds| - 1, nWrites);
        Ok(before.value + last.value)
  }

  /** One more writer appends its indexes to those of the writers before it. */
  lemma WriterIndexesSucc(seeds: seq<Word>, t: nat, nLocks: u32, nWrites: nat, writes: seq<nat>, indexes: seq<nat>)
    requires t < |seeds|
    requires WriterIndexes(seeds[..t], nLocks, nWrites) == Ok(writes)
    requires Indexes(seeds[t], nLocks, nWrites) == Ok(indexes)
    ensures WriterIndexes(seeds[..t + 1], nLocks, nWrites) == Ok(writes + indexes)
  {
    assert seeds[..t + 1][..t] == seeds[..t];
  }

  /** The writer threads, one per seed, each incrementing `nWrites` counters.
      When they succeed, `writes` lists every increment in the order applied:
      writer after writer, each at the indexes its own seed draws. */
  method RunWriters(locks: array<u32>, seeds: seq<Word>, nWrites: nat) returns (ok: bool, ghost writes: seq<nat>)
    requires locks.Length < U32_MODULUS
    modifies locks
    ensures ok <==> !(locks.Length == 0 && |seeds| > 0 && nWrites > 0)
    ensures ok ==> WriterIndexes(seeds, locks.Length, nWrites) == Ok(writes)
    ensures ok ==> InBounds(writes, locks.Length) && |writes| == |seeds| * nWrites
    ensures ok ==> locks[..] == ApplyWrites(old(locks[..]), writes)
  {
    writes := [];
    for t := 0 to |seeds|
      invariant !(locks.Length == 0 && t > 0 && nWrites > 0)
      invariant WriterIndexes(seeds[..t], locks.Length, nWrites) == Ok(writes)
      invariant InBounds(writes, locks.Length)
      invariant locks[..] == ApplyWrites(old(locks[..]), writes)
    {
      ghost var indexes;
      ok, indexes := WriterThread(locks, seeds[t], nWrites);
      if !ok {
        return false, writes;
      }
      WriterIndexesSucc(seeds, t, locks.Length, nWrites, writes, indexes);
      ApplyWritesAppend(old(locks[..]), writes, indexes);
      writes := writes + indexes;
    }
    assert seeds[..|seeds|] == seeds;
    return true, writes;
  }

  /** Starting from zero, `nWriters * nWrites` increments leave counters that
      add up to that product, wrapping. */
  lemma WritesTotal(nLocks: nat, writes: seq<nat>, nWriters: u32, nWrites: u32)
    requires InBounds(writes, nLocks) && |writes| == nWriters * nWrites
    ensures Sum(ApplyWrites(ZeroCounters(nLocks), writes)) % U32_MODULUS == WrappingMul(nWriters, nWrites)
  {
    ApplyWritesSum(ZeroCounters(nLocks), writes);
    SumZeroCounters(nLocks);
  }

  /** The workers of one run, started on fresh counters, and the summing
      loop after them. Unless a worker takes `% 0`, the counters add up to
      `n_writers * n_writes`, wrapping. */
  method RunWorkers(opts: Options) returns (ok: bool, total: u32)
    ensures ok <==> !WorkerPanics(opts)
    ensures ok ==> total == WrappingMul(opts.nWriters, opts.nWrites)
  {
    var locks := new u32[opts.nLocks](_ => 0);
    assert locks[..] == ZeroCounters(opts.nLocks);
    var readerSeeds, writerSeeds := ThreadSeedPlan(opts.nReaders as nat, opts.nWriters as nat);
    ok := RunReaders(locks, readerSeeds, opts.nReads as nat);
    if !ok {
      return false, 0;
    }
    ghost var writes;
    ok, writes := RunWriters(locks, writerSeeds, opts.nWrites as nat);
    if !ok {
      return false, 0;
    }
    total := SumCounters(locks);
    WritesTotal(opts.nLocks, writes, opts.nWriters, opts.nWrites);
  }

  /** `run_bench`, with every reader and then every writer run to completion
      one after another, and with `elapsed` the time the clock measures
      between the barriers. Unless a worker takes `% 0`, the run reports
      `elapsed` and the closing `assert_eq!` holds: the total is
      `n_writers * n_writes` (wrapping), so 0 without writers. */
  method RunBench(opts: Options, elapsed: nat) returns (r: Result<nat>, total: u32)
    ensures r.Err? <==> WorkerPanics(opts)
    ensures r.Err? ==> r.error == RemainderByZero
    ensures r.Ok? ==> r.value == elapsed
    ensures r.Ok? ==> total == WrappingMul(opts.nWriters, opts.nWrites)
    ensures r.Ok? && opts.nWriters as int * opts.nWrites < U32_MODULUS ==> total == opts.nWriters * opts.nWrites
    ensures r.Ok? && opts.nWriters == 0 ==> total == 0
  {
    var ok;
    ok, total := RunWorkers(opts);
    if !ok {
      return Err(RemainderByZero), 0;
    }
    var expected := WrappingMul(opts.nWriters, opts.nWrites);
    r := if total == expected then Ok(elapsed) else Err(ConsistencyViolation(total, expected));
  }
}
