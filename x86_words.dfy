/** 64-bit machine words as sequences of bits (bit 0 first), with the bit
    operations and the bit-counting queries of llvm/Support/MathExtras.h
    (isMask_64, countPopulation, countLeadingZeros, countTrailingZeros,
    getMinSignedBits) that the x86 instruction selector applies to its
    constants.  A w-bit value (w = 8, 16, 32 or 64) sits in the low w bits
    with the others clear. */
module X86Words {
  import opened Wrappers

  type Word = w: seq<bool> | |w| == 64 witness seq(64, _ => false)

  function Zero(): Word { seq(64, _ => false) }

  /** The k low bits set. */
  function LowOnes(k: nat): (r: Word)
    ensures forall i :: 0 <= i < 64 ==> (r[i] <==> i < k)
  {
    seq(64, i => i < k)
  }

  /** APInt::getHighBitsSet(w, k): bits w - k .. w - 1 set. */
  function HighOnes(w: nat, k: nat): (r: Word)
    requires k <= w <= 64
    ensures forall i :: 0 <= i < 64 ==> (r[i] <==> w - k <= i < w)
  {
    seq(64, i => w - k <= i < w)
  }

  function And(a: Word, b: Word): (r: Word)
    ensures forall i :: 0 <= i < 64 ==> (r[i] <==> a[i] && b[i])
  {
    seq(64, i requires 0 <= i < 64 => a[i] && b[i])
  }

  function Or(a: Word, b: Word): (r: Word)
    ensures forall i :: 0 <= i < 64 ==> (r[i] <==> a[i] || b[i])
  {
    seq(64, i requires 0 <= i < 64 => a[i] || b[i])
  }

  function Xor(a: Word, b: Word): (r: Word)
    ensures forall i :: 0 <= i < 64 ==> (r[i] <==> a[i] != b[i])
  {
    seq(64, i requires 0 <= i < 64 => a[i] != b[i])
  }

  /** The complement of the low w bits (bits above w stay clear). */
  function Not(a: Word, w: nat): (r: Word)
    requires w <= 64
    ensures forall i :: 0 <= i < 64 ==> (r[i] <==> i < w && !a[i])
  {
    seq(64, i requires 0 <= i < 64 => i < w && !a[i])
  }

  /** Logical shift right by s. */
  function Shr(a: Word, s: nat): (r: Word)
    ensures forall i :: 0 <= i < 64 ==> (r[i] <==> i + s < 64 && a[i + s])
  {
    seq(64, i requires 0 <= i < 64 => i + s < 64 && a[i + s])
  }

  /** Shift left by s, keeping the low w bits. */
  function Shl(a: Word, s: nat, w: nat): (r: Word)
    requires w <= 64
    ensures forall i :: 0 <= i < 64 ==> (r[i] <==> s <= i < w && a[i - s])
  {
    seq(64, i requires 0 <= i < 64 => s <= i < w && a[i - s])
  }

  /** Arithmetic shift right of a w-bit value: bit w - 1 is copied in. */
  function AShr(a: Word, s: nat, w: nat): (r: Word)
    requires 1 <= w <= 64
    ensures forall i :: 0 <= i < 64 ==>
              (r[i] <==> i < w && (if i + s < w then a[i + s] else a[w - 1]))
  {
    seq(64, i requires 0 <= i < 64 => i < w && (if i + s < w then a[i + s] else a[w - 1]))
  }

  /** Truncation to the low w bits. */
  function Trunc(a: Word, w: nat): (r: Word)
    ensures forall i :: 0 <= i < 64 ==> (r[i] <==> i < w && a[i])
  {
    seq(64, i requires 0 <= i < 64 => i < w && a[i])
  }

  /** isUInt<n>: no bit at or above n is set. */
  predicate FitsUnsigned(a: Word, n: nat)
  {
    forall i :: n <= i < 64 ==> !a[i]
  }

  /** isInt<n> of the word read as an int64: bits n - 1 .. 63 all equal. */
  predicate FitsSigned(a: Word, n: nat)
    requires 1 <= n <= 64
  {
    forall i :: n - 1 <= i < 64 ==> a[i] == a[63]
  }

  predicate IsZero(a: Word, w: nat)
  {
    forall i :: 0 <= i < w && i < 64 ==> !a[i]
  }

  // ---------------------------------------------------------------------
  // Counting

  /** The number of set bits among bits 0 .. n - 1. */
  function PopBelow(a: Word, n: nat): (r: nat)
    requires n <= 64
    ensures r <= n
  {
    if n == 0 then 0 else PopBelow(a, n - 1) + (if a[n - 1] then 1 else 0)
  }

  /** countPopulation. */
  function Popcount(a: Word): nat
  {
    PopBelow(a, 64)
  }

  /** The length of the run of ones starting at bit i. */
  function OnesFrom(a: Word, i: nat): (r: nat)
    requires i <= 64
    ensures i <= r <= 64
    decreases 64 - i
  {
    if i < 64 && a[i] then OnesFrom(a, i + 1) else i
  }

  /** The position of the lowest set bit at or above i (64 if none). */
  function ZerosFrom(a: Word, i: nat): (r: nat)
    requires i <= 64
    ensures i <= r <= 64
    decreases 64 - i
  {
    if i < 64 && !a[i] then ZerosFrom(a, i + 1) else i
  }

  /** countTrailingZeros. */
  function Ctz(a: Word): nat
  {
    ZerosFrom(a, 0)
  }

  /** countLeadingZeros of the w-bit value in the low w bits. */
  function Clz(a: Word, w: nat): (r: nat)
    requires w <= 64
    ensures r <= w
  {
    if w == 0 then 0 else if a[w - 1] then 0 else 1 + Clz(a, w - 1)
  }

  /** The number of leading ones of the w-bit value. */
  function Clo(a: Word, w: nat): (r: nat)
    requires w <= 64
    ensures r <= w
  {
    if w == 0 then 0 else if !a[w - 1] then 0 else 1 + Clo(a, w - 1)
  }

  /** getMinSignedBits: the width minus the redundant copies of the sign
      bit. */
  function MinSignedBits(a: Word, w: nat): nat
    requires 1 <= w <= 64
  {
    var signBits := if a[w - 1] then Clo(a, w) else Clz(a, w);
    w - signBits + 1
  }

  /** isMask_64 (m != 0 && ((m + 1) & m) == 0): the set bits are a
      non-empty run starting at bit 0. */
  predicate IsMask64(a: Word)
  {
    OnesFrom(a, 0) >= 1 && forall i :: OnesFrom(a, 0) <= i < 64 ==> !a[i]
  }

  lemma {:induction false} OnesFromSpec(a: Word, i: nat)
    requires i <= 64
    ensures forall j :: i <= j < OnesFrom(a, i) ==> a[j]
    ensures OnesFrom(a, i) < 64 ==> !a[OnesFrom(a, i)]
    decreases 64 - i
  {
    if i < 64 && a[i] {
      OnesFromSpec(a, i + 1);
    }
  }

  lemma {:induction false} ZerosFromSpec(a: Word, i: nat)
    requires i <= 64
    ensures forall j :: i <= j < ZerosFrom(a, i) ==> !a[j]
    ensures ZerosFrom(a, i) < 64 ==> a[ZerosFrom(a, i)]
    decreases 64 - i
  {
    if i < 64 && !a[i] {
      ZerosFromSpec(a, i + 1);
    }
  }

  lemma {:induction false} PopBelowOfLowOnes(k: nat, n: nat)
    requires n <= 64
    ensures PopBelow(LowOnes(k), n) == if k < n then k else n
  {
    if n > 0 {
      PopBelowOfLowOnes(k, n - 1);
    }
  }

  /** A mask is the run of low ones as long as its population count. */
  lemma MaskIsLowOnes(a: Word)
    requires IsMask64(a)
    ensures 1 <= Popcount(a) && a == LowOnes(Popcount(a))
  {
    var k := OnesFrom(a, 0);
    OnesFromSpec(a, 0);
    assert a == LowOnes(k);
    PopBelowOfLowOnes(k, 64);
  }

  /** A run of k low ones is a mask. */
  lemma LowOnesIsMask(k: nat)
    requires 1 <= k <= 64
    ensures IsMask64(LowOnes(k)) && Popcount(LowOnes(k)) == k
  {
    var a := LowOnes(k);
    var r := OnesFrom(a, 0);
    OnesFromSpec(a, 0);
    PopBelowOfLowOnes(k, 64);
  }

  /** Clz counts the clear bits at the top of the w-bit value. */
  lemma {:induction false} ClzSpec(a: Word, w: nat)
    requires w <= 64
    ensures forall i :: w - Clz(a, w) <= i < w ==> !a[i]
    ensures Clz(a, w) < w ==> a[w - 1 - Clz(a, w)]
  {
    if w > 0 && !a[w - 1] {
      ClzSpec(a, w - 1);
    }
  }

  lemma {:induction false} CloSpec(a: Word, w: nat)
    requires w <= 64
    ensures forall i :: w - Clo(a, w) <= i < w ==> a[i]
    ensures Clo(a, w) < w ==> !a[w - 1 - Clo(a, w)]
  {
    if w > 0 && a[w - 1] {
      CloSpec(a, w - 1);
    }
  }

  /** getMinSignedBits(a) <= n says the w-bit value is an n-bit signed value
      sign-extended: bits n - 1 .. w - 1 are all copies of the sign bit. */
  lemma MinSignedBitsSpec(a: Word, w: nat, n: nat)
    requires 1 <= n <= w <= 64
    ensures MinSignedBits(a, w) <= n <==> forall i :: n - 1 <= i < w ==> a[i] == a[w - 1]
  {
    if a[w - 1] {
      CloSpec(a, w);
      var c := Clo(a, w);
      if c < w && c > w - n {
        assert !a[w - 1 - c];
      }
    } else {
      ClzSpec(a, w);
      var c := Clz(a, w);
      if c < w && c > w - n {
        assert a[w - 1 - c];
      }
    }
  }

  /** The leading zeros of a run of k low ones. */
  lemma ClzOfLowOnes(k: nat)
    requires 1 <= k <= 64
    ensures Clz(LowOnes(k), 64) == 64 - k
  {
    var z := Clz(LowOnes(k), 64);
    ClzSpec(LowOnes(k), 64);
    assert LowOnes(k)[k - 1];
  }

  /** The trailing zeros of the complement of a run of k low ones. */
  lemma CtzOfHighOnes(k: nat)
    requires k < 64
    ensures Ctz(Not(LowOnes(k), 64)) == k
  {
    var a := Not(LowOnes(k), 64);
    ZerosFromSpec(a, 0);
    assert a[k];
  }
}
