/** Small shared vocabulary: an optional value, and two's-complement helpers
    for the fixed-width integers (int32_t, int64_t, uint64_t) the modelled code
    computes with. */
module Wrappers {

  /** An optional value: a null attribute, an absent operand, a fold that
      produced nothing. */
  datatype Option<+T> = None | Some(value: T)

  const TWO_32: int := 0x1_0000_0000
  const TWO_63: int := 0x8000_0000_0000_0000
  const TWO_64: int := 0x1_0000_0000_0000_0000

  /** isInt<N>(x) of llvm/Support/MathExtras.h: x is representable as an
      N-bit two's-complement integer. */
  predicate IsIntN(n: nat, x: int)
    requires n > 0
  {
    -(Pow2(n - 1) as int) <= x < Pow2(n - 1)
  }

  /** isUInt<N>(x): x is representable as an N-bit unsigned integer. */
  predicate IsUIntN(n: nat, x: int)
  {
    0 <= x < Pow2(n)
  }

  function Pow2(n: nat): (p: nat)
    ensures p >= 1
  {
    if n == 0 then 1 else 2 * Pow2(n - 1)
  }

  lemma {:induction false} Pow2Monotone(m: nat, n: nat)
    requires m <= n
    ensures Pow2(m) <= Pow2(n)
    decreases n - m
  {
    if m < n {
      Pow2Monotone(m + 1, n);
    }
  }

  lemma Pow2Of16()
    ensures Pow2(16) == 0x1_0000
  {
    assert Pow2(8) == 256;
    Pow2Add(8, 8);
  }

  lemma Pow2Of64()
    ensures Pow2(64) == TWO_64
  {
    Pow2Of16();
    Pow2Add(16, 16);
    assert Pow2(32) == 0x1_0000_0000;
    Pow2Add(32, 32);
  }

  lemma {:induction false} Pow2Add(a: nat, b: nat)
    ensures Pow2(a + b) == Pow2(a) * Pow2(b)
  {
    if a > 0 {
      Pow2Add(a - 1, b);
    }
  }

  /** A value that fits in m bits fits in every wider width. */
  lemma IsIntNWidens(m: nat, n: nat, x: int)
    requires 0 < m <= n
    ensures IsIntN(m, x) ==> IsIntN(n, x)
  {
    Pow2Monotone(m - 1, n - 1);
  }

  /** The value a uint64_t holds after an assignment from x (wrap modulo 2^64). */
  function U64(x: int): (r: int)
    ensures 0 <= r < TWO_64
    ensures (r - x) % TWO_64 == 0
  {
    x % TWO_64
  }

  /** The value an int64_t holds after a conversion from x (two's complement). */
  function S64(x: int): (r: int)
    ensures -TWO_63 <= r < TWO_63
    ensures (r - x) % TWO_64 == 0
    ensures -TWO_63 <= x < TWO_63 ==> r == x
  {
    var u := x % TWO_64;
    if u < TWO_63 then u else u - TWO_64
  }

  /** The value an int32_t holds after a conversion from x (two's complement). */
  function S32(x: int): (r: int)
    ensures -0x8000_0000 <= r < 0x8000_0000
    ensures (r - x) % TWO_32 == 0
    ensures -0x8000_0000 <= x < 0x8000_0000 ==> r == x
  {
    var u := x % TWO_32;
    if u < 0x8000_0000 then u else u - TWO_32
  }
}
