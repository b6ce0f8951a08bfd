/** A `u32` seen as its 32 bits, least significant first. The generator only
    XORs and shifts, which act bit by bit, so the words it works on are kept
    as bit sequences; `Value` reads a word back as the number Rust sees, and
    `ShlValue` and `ShrValue` show that the shifts here are Rust's `<<` and
    `>>` on `u32`. */
module Bits {
  import opened Base

  function Pow2(k: nat): (r: nat)
    ensures r > 0
  {
    if k == 0 then 1 else 2 * Pow2(k - 1)
  }

  lemma DoubleMul(p: int, q: int)
    ensures (2 * p) * q == 2 * (p * q)
  {
  }

  lemma {:induction false} Pow2Sum(i: nat, j: nat)
    ensures Pow2(i + j) == Pow2(i) * Pow2(j)
    decreases i
  {
    if i > 0 {
      Pow2Sum(i - 1, j);
      DoubleMul(Pow2(i - 1), Pow2(j));
    }
  }

  /** A word holds exactly the values below the `u32` modulus. */
  lemma Pow2Width()
    ensures Pow2(32) == U32_MODULUS
  {
    assert Pow2(2) == 4;
    Pow2Sum(2, 2);
    Pow2Sum(4, 4);
    Pow2Sum(8, 8);
    Pow2Sum(16, 16);
  }

  function Zeros(k: nat): (r: seq<bool>)
    ensures |r| == k
    ensures forall i :: 0 <= i < k ==> !r[i]
  {
    seq(k, _ => false)
  }

  /** A string of bits; a `Word` is one of exactly 32. Equality of words
      is equality of values of this datatype. */
  datatype BitString = BitString(bits: seq<bool>)

  type Word = w: BitString | |w.bits| == 32 witness BitString(seq(32, _ => false))

  const Zero: Word := BitString(Zeros(32))

  /** `a ^ b`. */
  function Xor(a: Word, b: Word): Word
  {
    BitString(seq(32, i requires 0 <= i < 32 => a.bits[i] != b.bits[i]))
  }

  /** `a << k`: the low `k` bits become 0 and the top `k` bits are lost. */
  function Shl(a: Word, k: nat): Word
    requires k < 32
  {
    BitString(Zeros(k) + a.bits[..32 - k])
  }

  /** `a >> k`: the low `k` bits are lost and zeros come in at the top. */
  function Shr(a: Word, k: nat): Word
    requires k < 32
  {
    BitString(a.bits[k..] + Zeros(k))
  }

  /** A bit of `a ^ b` is set when exactly one operand has it. */
  lemma XorBit(a: Word, b: Word, i: nat)
    requires i < 32
    ensures Xor(a, b).bits[i] == (a.bits[i] != b.bits[i])
  {
  }

  /** Bit `i` of `a << k` is bit `i - k` of `a`. */
  lemma ShlBit(a: Word, k: nat, i: nat)
    requires k < 32 && i < 32
    ensures Shl(a, k).bits[i] == (k <= i && a.bits[i - k])
  {
  }

  /** Bit `i` of `a >> k` is bit `i + k` of `a`. */
  lemma ShrBit(a: Word, k: nat, i: nat)
    requires k < 32 && i < 32
    ensures Shr(a, k).bits[i] == (i + k < 32 && a.bits[i + k])
  {
  }

  /** The number a bit string stands for, least significant bit first. */
  function ValueOf(s: seq<bool>): nat
  {
    if s == [] then 0 else (if s[0] then 1 else 0) + 2 * ValueOf(s[1..])
  }

  /** The `u32` a word stands for. */
  function Value(w: Word): nat
  {
    ValueOf(w.bits)
  }

  /** The lowest `k` bits of `v`. */
  function FromNat(v: nat, k: nat): (r: seq<bool>)
    ensures |r| == k
  {
    if k == 0 then [] else [v % 2 == 1] + FromNat(v / 2, k - 1)
  }

  /** The word holding the `u32` value `v`. */
  function FromU32(v: u32): Word
  {
    BitString(FromNat(v, 32))
  }

  lemma {:induction false} ValueBound(s: seq<bool>)
    ensures ValueOf(s) < Pow2(|s|)
  {
    if s != [] {
      ValueBound(s[1..]);
    }
  }

  lemma {:induction false} ValueFromNat(v: nat, k: nat)
    requires v < Pow2(k)
    ensures ValueOf(FromNat(v, k)) == v
  {
    if k > 0 {
      var r := FromNat(v, k);
      assert r[1..] == FromNat(v / 2, k - 1);
      ValueFromNat(v / 2, k - 1);
    }
  }

  lemma {:induction false} FromNatValue(s: seq<bool>)
    ensures FromNat(ValueOf(s), |s|) == s
  {
    if s != [] {
      FromNatValue(s[1..]);
      assert [ValueOf(s) % 2 == 1] + FromNat(ValueOf(s) / 2, |s| - 1) == [s[0]] + s[1..];
    }
  }

  /** Words and `u32` values correspond one to one. */
  lemma WordRoundTrip(v: u32, w: Word)
    ensures Value(FromU32(v)) == v
    ensures Value(w) < U32_MODULUS
    ensures FromU32(Value(w)) == w
  {
    Pow2Width();
    ValueFromNat(v, 32);
    ValueBound(w.bits);
    FromNatValue(w.bits);
  }

  lemma {:induction false} ValueZeros(k: nat)
    ensures ValueOf(Zeros(k)) == 0
  {
    if k > 0 {
      assert Zeros(k)[1..] == Zeros(k - 1);
      ValueZeros(k - 1);
    }
  }

  /** Concatenation puts the second part above the first. */
  lemma {:induction false} ValueAppend(a: seq<bool>, b: seq<bool>)
    ensures ValueOf(a + b) == ValueOf(a) + Pow2(|a|) * ValueOf(b)
  {
    if a == [] {
      assert a + b == b;
    } else {
      assert (a + b)[1..] == a[1..] + b;
      ValueAppend(a[1..], b);
      DoubleMul(Pow2(|a| - 1), ValueOf(b));
    }
  }

  lemma ZeroMultiple(p: int, t: int)
    requires p > 0 && -p < p * t < p
    ensures t == 0
  {
  }

  /** Quotient and remainder of a number written as `r + p * q`. */
  lemma DivModOfSplit(r: nat, p: nat, q: nat)
    requires r < p
    ensures (r + p * q) / p == q && (r + p * q) % p == r
  {
    var x := r + p * q;
    assert p * (x / p - q) == r - x % p;
    ZeroMultiple(p, x / p - q);
  }

  /** `Shr` is division by a power of two, as `>>` on `u32`. */
  lemma ShrValue(a: Word, k: nat)
    requires k < 32
    ensures Value(Shr(a, k)) == Value(a) / Pow2(k)
  {
    var lo, hi := a.bits[..k], a.bits[k..];
    assert a.bits == lo + hi;
    ValueAppend(lo, hi);
    ValueBound(lo);
    ValueAppend(hi, Zeros(k));
    ValueZeros(k);
    DivModOfSplit(ValueOf(lo), Pow2(k), ValueOf(hi));
  }

  /** Multiplying `lo + plo * hi` by `pk` and reducing modulo `pk * plo`
      leaves `pk * lo`, when `lo < plo`. */
  lemma ScaledLowPart(lo: nat, hi: nat, pk: nat, plo: nat)
    requires lo < plo && pk > 0
    ensures (lo + plo * hi) * pk % (pk * plo) == pk * lo
  {
    assert (lo + plo * hi) * pk == pk * lo + (pk * plo) * hi;
    assert pk * lo < pk * plo;
    DivModOfSplit(pk * lo, pk * plo, hi);
  }

  /** `Shl` is multiplication by a power of two modulo 2^32, as `<<` on
      `u32`. */
  lemma ShlValue(a: Word, k: nat)
    requires k < 32
    ensures Value(Shl(a, k)) == Value(a) * Pow2(k) % U32_MODULUS
  {
    var lo, hi := a.bits[..32 - k], a.bits[32 - k..];
    assert a.bits == lo + hi;
    ValueAppend(lo, hi);
    ValueAppend(Zeros(k), lo);
    ValueZeros(k);
    ValueBound(lo);
    Pow2Sum(k, 32 - k);
    Pow2Width();
    ScaledLowPart(ValueOf(lo), ValueOf(hi), Pow2(k), Pow2(32 - k));
  }

  lemma XorAssociative(a: Word, b: Word, c: Word)
    ensures Xor(Xor(a, b), c) == Xor(a, Xor(b, c))
  {
  }

  lemma ShiftZero(k: nat)
    requires k < 32
    ensures Shl(Zero, k) == Zero && Shr(Zero, k) == Zero
  {
  }

  lemma XorZero(a: Word)
    ensures Xor(a, Zero) == a && Xor(Zero, a) == a
  {
  }
}
