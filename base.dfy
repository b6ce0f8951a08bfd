/** Shared vocabulary of the benchmark model: 32-bit unsigned words with the
    wrapping arithmetic of an optimised Rust build, the run configuration,
    the ways a run can abort, and sums over sequences. */
module Base {

  /** The modulus of `u32` arithmetic. */
  const U32_MODULUS: int := 0x1_0000_0000

  /** Rust's `u32`. */
  type u32 = x: int | 0 <= x < 0x1_0000_0000

  /** `a + b` on `u32` in a release build: the carry out of bit 31 is lost. */
  function WrappingAdd(a: u32, b: u32): (r: u32)
    ensures r == (a + b) % U32_MODULUS
    ensures a + b < U32_MODULUS ==> r == a + b
  {
    if a + b < U32_MODULUS then a + b else a + b - U32_MODULUS
  }

  /** `a * b` on `u32` in a release build: the product modulo 2^32. */
  function WrappingMul(a: u32, b: u32): (r: u32)
    ensures a * b < U32_MODULUS ==> r == a * b
  {
    var p := a * b;
    ModOfSmall(p);
    p % U32_MODULUS
  }

  /** A value already below 2^32 is its own reduction. */
  lemma ModOfSmall(x: int)
    ensures 0 <= x < U32_MODULUS ==> x % U32_MODULUS == x
  {
  }

  /** The six positional command-line numbers, in their order. */
  datatype Options = Options(
    nReaders: u32,
    nReads: u32,
    nWriters: u32,
    nWrites: u32,
    nLocks: u32,
    nRounds: u32)

  /** Why a run or a whole benchmark aborts. */
  datatype Panic =
    | RemainderByZero                                  // `it % n_locks` with n_locks == 0
    | DurationDivideByZero                             // `sum / n_rounds` with n_rounds == 0
    | ConsistencyViolation(total: u32, expected: u32)  // the `assert_eq!` after a run

  datatype Result<T> = Ok(value: T) | Err(error: Panic)

  /** Sum of a sequence, taken from the front like an iterator's `sum`. */
  function Sum(s: seq<int>): int
  {
    if s == [] then 0 else Sum(s[..|s| - 1]) + s[|s| - 1]
  }

  lemma SumOfU32s(s: seq<u32>)
    ensures Sum(s) >= 0
  {
    if s != [] {
      SumOfU32s(s[..|s| - 1]);
    }
  }

  /** Overwriting one element changes the sum by the difference. */
  lemma {:induction false} SumUpdate(s: seq<int>, i: nat, v: int)
    requires i < |s|
    ensures Sum(s[i := v]) == Sum(s) - s[i] + v
  {
    var n := |s| - 1;
    assert s[i := v][..n] == if i < n then s[..n][i := v] else s[..n];
    if i < n {
      SumUpdate(s[..n], i, v);
    }
  }

  /** Splitting a sequence at any point splits its sum. */
  lemma {:induction false} SumAppend(a: seq<int>, b: seq<int>)
    ensures Sum(a + b) == Sum(a) + Sum(b)
  {
    if b != [] {
      assert (a + b)[..|a + b| - 1] == a + b[..|b| - 1];
      SumAppend(a, b[..|b| - 1]);
    } else {
      assert a + b == a;
    }
  }

  lemma MulSucc(t: nat, n: int)
    ensures (t + 1) * n == t * n + n
  {
  }

  /** Reduction modulo 2^32 can be done before or after adding. */
  lemma ModAddLeft(a: int, b: int)
    ensures (a % U32_MODULUS + b) % U32_MODULUS == (a + b) % U32_MODULUS
  {
  }
}
