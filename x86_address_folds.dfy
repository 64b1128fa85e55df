/** The arithmetic tests of the rewrites matchAddressRecursively applies to
    an AND or SRL of a constant-count shift and a constant mask, so that a
    shift by 1, 2 or 3 becomes the scale of the addressing mode, and the
    value identities that make each rewrite correct. */
module X86AddressFolds {
  import opened Wrappers
  import opened X86Words

  /** Binary digit i of u. */
  function Bit(u: nat, i: nat): bool
  {
    if i == 0 then u % 2 == 1 else Bit(u / 2, i - 1)
  }

  /** The bits of a constant as a uint64_t. */
  function WordOf(v: int): Word
  {
    seq(64, i requires 0 <= i < 64 => Bit(U64(v), i))
  }

  lemma {:induction false} ZeroHasNoBits(i: nat)
    ensures !Bit(0, i)
  {
    if i > 0 {
      ZeroHasNoBits(i - 1);
    }
  }

  /** 2^m - 2^k is the run of ones from bit k up to bit m - 1. */
  lemma {:induction false} BitsOfRun(m: nat, k: nat, i: nat)
    requires k <= m
    ensures Pow2(k) <= Pow2(m) && (Bit(Pow2(m) - Pow2(k), i) <==> k <= i < m)
  {
    Pow2Monotone(k, m);
    if m == k {
      ZeroHasNoBits(i);
    } else if i == 0 {
      if k > 0 {
        assert Pow2(m) - Pow2(k) == 2 * (Pow2(m - 1) - Pow2(k - 1));
      }
    } else if k == 0 {
      assert (Pow2(m) - Pow2(k)) / 2 == Pow2(m - 1) - Pow2(0);
      BitsOfRun(m - 1, 0, i - 1);
    } else {
      assert (Pow2(m) - Pow2(k)) / 2 == Pow2(m - 1) - Pow2(k - 1);
      BitsOfRun(m - 1, k - 1, i - 1);
    }
  }

  /** -2^k as a uint64_t: the bits from k up are set. */
  lemma WordOfMinusPow2(k: nat, i: nat)
    requires k < 64 && i < 64
    ensures WordOf(0 - Pow2(k) as int)[i] <==> k <= i
  {
    BitsOfRun(64, k, i);
    Pow2Of64();
  }

  // ---------------------------------------------------------------------
  // foldMaskAndShiftToExtract: (X >> (8 - C1)) & (0xff << C1)
  //                        ==> ((X >> 8) & 0xff) << C1

  /** The scale log C1, or None.  The count is a uint64_t and 8 minus it is
      read as a C int. */
  function ExtractScaleLog(shiftAmt: nat, mask: Word): (r: Option<nat>)
    ensures r.Some? ==> 1 <= r.value <= 3 && mask == Shl(LowOnes(8), r.value, 64)
    ensures r.Some? && shiftAmt < 64 ==> shiftAmt + r.value == 8
  {
    var scaleLog := S32(8 - shiftAmt);
    if scaleLog <= 0 || scaleLog >= 4 || mask != Shl(LowOnes(8), scaleLog, 64) then None
    else Some(scaleLog)
  }

  lemma ExtractIsByteThenScale(shiftAmt: nat, mask: Word, x: Word)
    requires shiftAmt < 64 && ExtractScaleLog(shiftAmt, mask).Some?
    ensures var k := ExtractScaleLog(shiftAmt, mask).value;
            And(Shr(x, shiftAmt), mask) == Shl(And(Shr(x, 8), LowOnes(8)), k, 64)
  {
    var k := ExtractScaleLog(shiftAmt, mask).value;
    var lhs := And(Shr(x, shiftAmt), mask);
    var rhs := Shl(And(Shr(x, 8), LowOnes(8)), k, 64);
    assert forall i :: 0 <= i < 64 ==> lhs[i] == rhs[i];
  }

  // ---------------------------------------------------------------------
  // foldMaskAndShiftToScale: (X >> C1) & Mask ==> (X >> (C1 + C2)) << C2
  // with C2 the trailing zeros of Mask

  /** isShiftedMask_64: the set bits are one non-empty run. */
  predicate IsShiftedMask(m: Word)
  {
    Ctz(m) < 64 && forall i :: OnesFrom(m, Ctz(m)) <= i < 64 ==> !m[i]
  }

  /** The shift moved into the scale, or None.  `anyExtendFrom` is the
      width of the operand when X is an ANY_EXTEND; `knownZero` is the
      known-zero mask of the value the test inspects. */
  function MaskShiftScaleLog(shiftAmt: nat, mask: Word, xBits: nat, anyExtendFrom: Option<nat>,
                             knownZero: Word): (r: Option<nat>)
    requires 8 <= xBits <= 64 && (anyExtendFrom.Some? ==> anyExtendFrom.value <= xBits)
    ensures r.Some? ==> 1 <= r.value <= 3 && r.value == Ctz(mask)
  {
    var lz := Clz(mask, 64);
    var tz := Ctz(mask);
    if tz == 0 || tz > 3 then None
    else if OnesFrom(Shr(mask, tz), 0) + tz + lz != 64 then None
    else
      // `unsigned` arithmetic
      var scaleDown := (64 - xBits + shiftAmt % TWO_32) % TWO_32;
      if lz < scaleDown then None
      else
        var lz1 := lz - scaleDown;
        var bits := if anyExtendFrom.Some? then anyExtendFrom.value else xBits;
        var lz2 := if anyExtendFrom.None? then lz1
                   else if xBits - anyExtendFrom.value > lz1 then 0
                   else lz1 - (xBits - anyExtendFrom.value);
        if lz2 > bits then None
        else if HighOnes(bits, lz2) != knownZero then None
        else Some(tz)
  }

  /** The set bits of a mask that passes the contiguity test. */
  lemma ContiguousMaskBits(mask: Word)
    requires Ctz(mask) < 64 && OnesFrom(Shr(mask, Ctz(mask)), 0) + Ctz(mask) + Clz(mask, 64) == 64
    ensures forall i :: 0 <= i < 64 ==> (mask[i] <==> Ctz(mask) <= i < 64 - Clz(mask, 64))
  {
    var tz := Ctz(mask);
    ZerosFromSpec(mask, 0);
    ClzSpec(mask, 64);
    OnesFromSpec(Shr(mask, tz), 0);
    forall i | tz <= i < 64 - Clz(mask, 64)
      ensures mask[i]
    {
      assert Shr(mask, tz)[i - tz];
    }
  }

  /** What the test establishes without an any-extend and with a count
      below 64. */
  lemma MaskShiftGuardFacts(shiftAmt: nat, mask: Word, xBits: nat, knownZero: Word)
    requires 8 <= xBits <= 64 && shiftAmt < 64
    requires MaskShiftScaleLog(shiftAmt, mask, xBits, None, knownZero).Some?
    ensures 1 <= Ctz(mask) <= 3
    ensures OnesFrom(Shr(mask, Ctz(mask)), 0) + Ctz(mask) + Clz(mask, 64) == 64
    ensures 64 - xBits + shiftAmt <= Clz(mask, 64)
    ensures knownZero == HighOnes(xBits, Clz(mask, 64) - (64 - xBits + shiftAmt))
  {
    assert (64 - xBits + shiftAmt % TWO_32) % TWO_32 == 64 - xBits + shiftAmt;
  }

  /** Without an any-extend, the masked shift is the longer shift followed
      by the scale, for every X whose known-zero bits are zero. */
  lemma MaskShiftIsLongerShiftThenScale(shiftAmt: nat, mask: Word, xBits: nat, knownZero: Word, x: Word)
    requires 8 <= xBits <= 64 && shiftAmt < 64
    requires MaskShiftScaleLog(shiftAmt, mask, xBits, None, knownZero).Some?
    requires FitsUnsigned(x, xBits) && forall i :: 0 <= i < 64 && knownZero[i] ==> !x[i]
    ensures var tz := MaskShiftScaleLog(shiftAmt, mask, xBits, None, knownZero).value;
            And(Shr(x, shiftAmt), mask) == Shl(Shr(x, shiftAmt + tz), tz, 64)
  {
    MaskShiftGuardFacts(shiftAmt, mask, xBits, knownZero);
    var tz := Ctz(mask);
    var lz := Clz(mask, 64);
    ContiguousMaskBits(mask);
    var lhs := And(Shr(x, shiftAmt), mask);
    var rhs := Shl(Shr(x, shiftAmt + tz), tz, 64);
    forall i | 0 <= i < 64
      ensures lhs[i] == rhs[i]
    {
      if tz <= i && i + shiftAmt < 64 && x[i + shiftAmt] {
        assert i + shiftAmt < xBits;
        assert !knownZero[i + shiftAmt];
        assert i < 64 - lz;
      }
    }
  }

  // ---------------------------------------------------------------------
  // foldMaskedShiftToBEXTR: (X >> C1) & (M << C2) ==> ((X >> (C1 + C2)) & M) << C2

  function BextrScaleLog(preferBextr: bool, mask: Word): (r: Option<nat>)
    ensures r.Some? ==> preferBextr && IsShiftedMask(mask) && 1 <= r.value <= 3 && r.value == Ctz(mask)
  {
    if !preferBextr then None
    else if !IsShiftedMask(mask) then None
    else
      var tz := Ctz(mask);
      if tz == 0 || tz > 3 then None else Some(tz)
  }

  lemma BextrFoldIsShiftOfExtract(preferBextr: bool, mask: Word, shiftAmt: nat, x: Word)
    requires BextrScaleLog(preferBextr, mask).Some?
    ensures var tz := BextrScaleLog(preferBextr, mask).value;
            And(Shr(x, shiftAmt), mask) == Shl(And(Shr(x, shiftAmt + tz), Shr(mask, tz)), tz, 64)
  {
    var tz := Ctz(mask);
    ZerosFromSpec(mask, 0);
    var lhs := And(Shr(x, shiftAmt), mask);
    var rhs := Shl(And(Shr(x, shiftAmt + tz), Shr(mask, tz)), tz, 64);
    assert forall i :: 0 <= i < 64 ==> lhs[i] == rhs[i];
  }

  // ---------------------------------------------------------------------
  // foldMaskedShiftToScaledMask: (X << C1) & C2 ==> (X & (C2 >> C1)) << C1

  /** The mask is shifted arithmetically (it is an int64_t); the bits it
      brings in are shifted out again. */
  lemma ScaledMaskIsMaskThenShift(x: Word, c: nat, mask: Word, w: nat)
    requires 1 <= w <= 64
    ensures And(Shl(x, c, w), mask) == Shl(And(x, AShr(mask, c, 64)), c, w)
  {
    var lhs := And(Shl(x, c, w), mask);
    var rhs := Shl(And(x, AShr(mask, c, 64)), c, w);
    assert forall i :: 0 <= i < 64 ==> lhs[i] == rhs[i];
  }

  // ---------------------------------------------------------------------
  // ZERO_EXTEND of a shift: zext (shl nuw X, C) ==> shl (zext X), C

  /** When the bits the narrow shift drops are zero, widening before the
      shift gives the same value. */
  lemma ZextOfShlIsShlOfZext(x: Word, c: nat, narrow: nat, wide: nat)
    requires c <= narrow <= wide <= 64
    requires FitsUnsigned(x, narrow) && And(x, HighOnes(narrow, c)) == Zero()
    ensures Shl(x, c, narrow) == Shl(x, c, wide)
  {
    var lhs := Shl(x, c, narrow);
    var rhs := Shl(x, c, wide);
    forall i | 0 <= i < 64
      ensures lhs[i] == rhs[i]
    {
      if c <= i && i < wide && narrow <= i {
        assert !And(x, HighOnes(narrow, c))[i - c];
      }
    }
  }
}
