/** The pseudo-random stream behind every workload: Marsaglia's xorshift on a
    32-bit state with the shift triple 13, 17, 5. The stream's state is the
    last value it produced, so the stream is a function of its seed and of how
    many values have been drawn. */
module Xorshift {
  import opened Bits

  /** One step of the generator: `random ^= random << 13`, then `>> 17`,
      then `<< 5`. */
  function Step(x: Word): Word
  {
    var a := Xor(x, Shl(x, 13));
    var b := Xor(a, Shr(a, 17));
    Xor(b, Shl(b, 5))
  }

  /** The state after `k` steps from `seed`. */
  function Iterate(seed: Word, k: nat): Word
    decreases k
  {
    if k == 0 then seed else Iterate(Step(seed), k - 1)
  }

  /** The first `n` values drawn from the stream seeded with `seed`
      (`random_numbers(seed).take(n)`): each draw steps the state and yields
      the new state. */
  function Outputs(seed: Word, n: nat): (r: seq<Word>)
    decreases n
    ensures |r| == n
    ensures forall k :: 0 <= k < n ==> r[k] == Iterate(seed, k + 1)
  {
    if n == 0 then [] else [Step(seed)] + Outputs(Step(seed), n - 1)
  }

  /** Stepping once more is applying `Step` to the current state. */
  lemma {:induction false} IterateSucc(seed: Word, k: nat)
    ensures Iterate(seed, k + 1) == Step(Iterate(seed, k))
    decreases k
  {
    if k > 0 {
      IterateSucc(Step(seed), k - 1);
    }
  }

  /** Determinism: two streams from one seed agree on every common prefix. */
  lemma OutputsPrefix(seed: Word, n: nat, m: nat)
    requires n <= m
    ensures Outputs(seed, n) == Outputs(seed, m)[..n]
  {
  }

  /** The stream holds no state beyond its last value: after `n` draws, the
      rest of the stream is the stream seeded with the `n`-th value. */
  lemma {:induction false} OutputsSplit(seed: Word, n: nat, m: nat)
    ensures Outputs(seed, n + m) == Outputs(seed, n) + Outputs(Iterate(seed, n), m)
    decreases n
  {
    if n > 0 {
      OutputsSplit(Step(seed), n - 1, m);
      assert Outputs(seed, n + m) == [Step(seed)] + Outputs(Step(seed), n - 1 + m);
      assert Outputs(seed, n) == [Step(seed)] + Outputs(Step(seed), n - 1);
    }
  }

  /** Zero is a fixed point of the generator. */
  lemma StepZero()
    ensures Step(Zero) == Zero
  {
    ShiftZero(13);
    ShiftZero(17);
    ShiftZero(5);
    XorZero(Zero);
  }

  /** Every state reached from seed 0 is 0. */
  lemma {:induction false} ZeroIterate(k: nat)
    ensures Iterate(Zero, k) == Zero
    decreases k
  {
    if k > 0 {
      StepZero();
      ZeroIterate(k - 1);
    }
  }

  /** A stream seeded with 0 yields only 0. */
  lemma ZeroStream(n: nat)
    ensures forall k :: 0 <= k < n ==> Outputs(Zero, n)[k] == Zero
  {
    forall k | 0 <= k < n
      ensures Outputs(Zero, n)[k] == Zero
    {
      ZeroIterate(k + 1);
    }
  }

  /** A stage `a ^ (a << k)` that yields 0 had no bit set at `i`, nor at any
      position below `i` congruent to it modulo `k`. */
  lemma {:induction false} ShiftLeftKernel(a: Word, k: nat, i: nat)
    requires 0 < k < 32 && i < 32 && Xor(a, Shl(a, k)) == Zero
    ensures !a.bits[i]
  {
    assert !Xor(a, Shl(a, k)).bits[i];
    XorBit(a, Shl(a, k), i);
    ShlBit(a, k, i);
    if i >= k {
      ShiftLeftKernel(a, k, i - k);
    }
  }

  /** The same for `a ^ (a >> k)`, reasoning downwards from the top bit. */
  lemma {:induction false} ShiftRightKernel(a: Word, k: nat, i: nat)
    requires 0 < k < 32 && i < 32 && Xor(a, Shr(a, k)) == Zero
    ensures !a.bits[i]
    decreases 32 - i
  {
    assert !Xor(a, Shr(a, k)).bits[i];
    XorBit(a, Shr(a, k), i);
    ShrBit(a, k, i);
    if i + k < 32 {
      ShiftRightKernel(a, k, i + k);
    }
  }

  /** 0 is the only state that `Step` sends to 0. */
  lemma StepZeroIff(x: Word)
    ensures Step(x) == Zero <==> x == Zero
  {
    if Step(x) == Zero {
      var a := Xor(x, Shl(x, 13));
      var b := Xor(a, Shr(a, 17));
      forall i | 0 <= i < 32 ensures !b.bits[i] { ShiftLeftKernel(b, 5, i); }
      assert b.bits == Zero.bits;
      forall i | 0 <= i < 32 ensures !a.bits[i] { ShiftRightKernel(a, 17, i); }
      assert a.bits == Zero.bits;
      forall i | 0 <= i < 32 ensures !x.bits[i] { ShiftLeftKernel(x, 13, i); }
      assert x.bits == Zero.bits;
    } else if x == Zero {
      StepZero();
    }
  }

  /** A non-zero seed never reaches the zero fixed point. */
  lemma {:induction false} NonZeroStream(seed: Word, k: nat)
    requires seed != Zero
    ensures Iterate(seed, k) != Zero
    decreases k
  {
    if k > 0 {
      StepZeroIff(seed);
      NonZeroStream(Step(seed), k - 1);
    }
  }
}
