/** The deterministic workload of one run: one seed per worker thread, taken
    from a prefix-XOR scan over a fixed stream, and the lock indexes each
    worker draws from the stream its seed starts. */
module Workload {
  import opened Base
  import opened Bits
  import opened Xorshift

  /** Seed of the stream that every thread seed is folded from. */
  const SeedStreamSeed: Word := FromU32(0x6F4A955E)
  /** Initial accumulator of the fold. */
  const SeedAccumulator: Word := FromU32(0x9BA2BF27)

  lemma SeedConstants()
    ensures Value(SeedStreamSeed) == 0x6F4A955E
    ensures Value(SeedAccumulator) == 0x9BA2BF27
  {
    WordRoundTrip(0x6F4A955E, SeedStreamSeed);
    WordRoundTrip(0x9BA2BF27, SeedAccumulator);
  }

  /** Exclusive-or of all elements, folded from the front. */
  function XorAll(xs: seq<Word>): Word
  {
    if xs == [] then Zero else Xor(XorAll(xs[..|xs| - 1]), xs[|xs| - 1])
  }

  /** The accumulator of `random_numbers(seed).scan(init, |state, n| {
      *state ^= n; Some(*state) })` after `n` values have been drawn; the
      scan yields the accumulator after each draw. */
  function ScanState(seed: Word, init: Word, n: nat): Word
  {
    if n == 0 then init else Xor(ScanState(seed, init, n - 1), Iterate(seed, n))
  }

  /** One step of the scan, in terms of the stream state and the accumulator. */
  lemma ScanStep(seed: Word, init: Word, n: nat, random: Word, state: Word)
    requires random == Iterate(seed, n) && state == ScanState(seed, init, n)
    ensures Step(random) == Iterate(seed, n + 1)
    ensures Xor(state, Step(random)) == ScanState(seed, init, n + 1)
  {
    IterateSucc(seed, n);
  }

  /** Drawing one more value XORs it into the fold of the drawn values. */
  lemma XorAllOutputsSucc(seed: Word, n: nat)
    ensures XorAll(Outputs(seed, n + 1)) == Xor(XorAll(Outputs(seed, n)), Iterate(seed, n + 1))
  {
    OutputsPrefix(seed, n, n + 1);
  }

  /** Closed form of the scan: after `n` draws the accumulator is `init` XOR
      the first `n` values of the stream. */
  lemma {:induction false} ScanClosedForm(seed: Word, init: Word, n: nat)
    ensures ScanState(seed, init, n) == Xor(init, XorAll(Outputs(seed, n)))
  {
    if n == 0 {
      assert Outputs(seed, 0) == [];
      XorZero(init);
    } else {
      ScanClosedForm(seed, init, n - 1);
      XorAllOutputsSucc(seed, n - 1);
      XorAssociative(init, XorAll(Outputs(seed, n - 1)), Iterate(seed, n));
    }
  }

  /** The scan as the source runs it: the accumulator is XORed with each drawn
      value and yielded, `count` times. */
  method Scan(seed: Word, init: Word, count: nat) returns (values: seq<Word>)
    ensures |values| == count
    ensures forall i :: 0 <= i < count ==> values[i] == ScanState(seed, init, i + 1)
  {
    var random := seed;
    var state := init;
    values := [];
    for n := 0 to count
      invariant |values| == n
      invariant random == Iterate(seed, n)
      invariant state == ScanState(seed, init, n)
      invariant forall i :: 0 <= i < n ==> values[i] == ScanState(seed, init, i + 1)
    {
      ScanStep(seed, init, n, random, state);
      state, random := Xor(state, Step(random)), Step(random);
      values := values + [state];
    }
  }

  /** The seed handed to the `i`-th thread of either role. */
  function ThreadSeed(i: nat): Word
  {
    ScanState(SeedStreamSeed, SeedAccumulator, i + 1)
  }

  /** Thread seed `i` is 0x9BA2BF27 XOR the first `i + 1` values of the
      stream seeded with 0x6F4A955E. */
  lemma ThreadSeedFormula(i: nat)
    ensures ThreadSeed(i) == Xor(SeedAccumulator, XorAll(Outputs(SeedStreamSeed, i + 1)))
  {
    ScanClosedForm(SeedStreamSeed, SeedAccumulator, i + 1);
  }

  /** The thread seeds of one role:
      `random_numbers(0x6F4A955E).scan(0x9BA2BF27, ..).take(count)`. */
  method ThreadSeeds(count: nat) returns (seeds: seq<Word>)
    ensures |seeds| == count
    ensures forall i :: 0 <= i < count ==> seeds[i] == ThreadSeed(i)
  {
    seeds := Scan(SeedStreamSeed, SeedAccumulator, count);
  }

  /** The reader and the writer seed sequences, built by two identical scans:
      reader `i` and writer `i` receive the same seed. */
  method ThreadSeedPlan(nReaders: nat, nWriters: nat) returns (readerSeeds: seq<Word>, writerSeeds: seq<Word>)
    ensures |readerSeeds| == nReaders && |writerSeeds| == nWriters
    ensures forall i :: 0 <= i < nReaders ==> readerSeeds[i] == ThreadSeed(i)
    ensures forall i :: 0 <= i < nWriters ==> writerSeeds[i] == ThreadSeed(i)
    ensures forall i :: 0 <= i < nReaders && i < nWriters ==> readerSeeds[i] == writerSeeds[i]
  {
    readerSeeds := ThreadSeeds(nReaders);
    writerSeeds := ThreadSeeds(nWriters);
  }

  /** `map(|it| it % n) .map(|it| it as usize)`, element by element. */
  function ReduceModulo(xs: seq<Word>, n: u32): (r: seq<nat>)
    requires n > 0
    ensures |r| == |xs|
    ensures forall k :: 0 <= k < |xs| ==> r[k] == Value(xs[k]) % n && r[k] < n
  {
    if xs == [] then [] else [Value(xs[0]) % n] + ReduceModulo(xs[1..], n)
  }

  /** The lock indexes a worker seeded with `seed` visits:
      `random_numbers(seed).map(% n_locks).take(count)`. `take(0)` never pulls
      from the stream, so the remainder by `n_locks == 0` panics only when at
      least one index is wanted. */
  function Indexes(seed: Word, nLocks: u32, count: nat): (r: Result<seq<nat>>)
    ensures r.Err? <==> count > 0 && nLocks == 0
    ensures r.Err? ==> r.error == RemainderByZero
    ensures r.Ok? ==> |r.value| == count
    ensures r.Ok? ==> forall k :: 0 <= k < count ==> r.value[k] < nLocks
    ensures r.Ok? ==> forall k :: 0 <= k < count ==> r.value[k] == Value(Iterate(seed, k + 1)) % nLocks
  {
    if count == 0 then Ok([])
    else if nLocks == 0 then Err(RemainderByZero)
    else Ok(ReduceModulo(Outputs(seed, count), nLocks))
  }
}
