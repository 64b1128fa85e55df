/** matchAddressRecursively and its callers: the walk over an address
    computation that fills the addressing-mode record, case by case on the
    node's opcode, with backtracking through record backups; matchAddress,
    which post-processes a successful match; and selectLEAAddr, which
    decides whether the matched mode is worth an LEA. */
module X86AddressMatch {
  import opened Wrappers
  import opened X86Words
  import opened X86AddressMode
  import opened X86AddressFolds

  // ---------------------------------------------------------------------
  // Address values modulo 2^32

  /** Two address computations agree in their low 32 bits, the bits every
      x86 displacement reaches. */
  predicate SameLow32(a: int, b: int)
  {
    (a - b) % TWO_32 == 0
  }

  lemma SameLow32Trans(a: int, b: int, c: int)
    requires SameLow32(a, b) && SameLow32(b, c)
    ensures SameLow32(a, c)
  {
    var p, q := (a - b) / TWO_32, (b - c) / TWO_32;
    assert a - c == (p + q) * TWO_32;
  }

  /** A wrap modulo 2^64 is also one modulo 2^32. */
  lemma Wrap64IsWrap32(a: int, b: int)
    requires (a - b) % TWO_64 == 0
    ensures SameLow32(a, b)
  {
    var q := (a - b) / TWO_64;
    assert a - b == (q * TWO_32) * TWO_32;
  }

  /** foldOffsetIntoAddress adds the offset to the displacement, modulo
      2^32, whatever the int64 and int32 conversions on the way. */
  lemma {:induction false} FoldedAddsOffset(s: AMState, offset: int)
    ensures SameLow32(Folded(s, offset).disp, s.disp + offset)
  {
    var v := OffsetSum(s, offset);
    Wrap64IsWrap32(v, s.disp + offset);
    SameLow32Trans(S32(v), v, s.disp + offset);
  }

  // ---------------------------------------------------------------------
  // Leaf cases

  /** ISD::LOCAL_RECOVER of an MCSymbol, into a record without symbol or
      displacement. */
  method MatchLocalRecover(mcSym: Option<nat>, am: AddressMode) returns (failed: bool)
    requires am.Valid()
    modifies am
    ensures failed <==> HasSymbolicDisplacement(old(am.State())) || old(am.disp) != 0 || mcSym.None?
    ensures !failed ==> am.State() == old(am.State()).(symbol := old(am.symbol).(mcSym := mcSym))
    ensures MatchOutcome(old(am.State()), am.State(), failed)
  {
    failed := HasSymbolicDisplacement(am.State()) || am.disp != 0 || mcSym.None?;
    if !failed {
      am.symbol := am.symbol.(mcSym := mcSym);
    }
  }

  /** matchLoadInAddress: a load from address 0 of the GS or FS address
      space is the segment register itself under the GNU TLS model. */
  method MatchLoadInAddress(t: Target, addr: Node, space: AddrSpace, am: AddressMode) returns (failed: bool)
    requires am.Valid()
    modifies am
    ensures failed <==> !(addr == Const(0) && old(am.segment).None? && t.tlsSegmentLoads &&
                          (space == GsSpace || space == FsSpace))
    ensures !failed ==>
              am.State() == old(am.State()).(segment := Some(PhysReg(if space == GsSpace then GsSegment else FsSegment)))
    ensures MatchOutcome(old(am.State()), am.State(), failed)
  {
    failed := true;
    if addr == Const(0) && am.segment.None? && t.tlsSegmentLoads {
      if space == GsSpace {
        am.segment := Some(PhysReg(GsSegment));
        failed := false;
      } else if space == FsSpace {
        am.segment := Some(PhysReg(FsSegment));
        failed := false;
      }
    }
  }

  /** ISD::FrameIndex, as the base when the base is free and, in 64-bit
      mode, the displacement leaves room for the frame offset. */
  method MatchFrameIndex(t: Target, index: int, am: AddressMode) returns (failed: bool)
    requires am.Valid()
    modifies am
    ensures failed <==> !(old(am.baseType) == RegBase && old(am.baseReg).None? &&
                          (!t.is64Bit || DispSafeForFrameIndex(old(am.disp))))
    ensures !failed ==> am.State() == old(am.State()).(baseType := FrameIndexBase, baseFrameIndex := index)
    ensures MatchOutcome(old(am.State()), am.State(), failed)
  {
    failed := !(am.baseType == RegBase && am.baseReg.None? && (!t.is64Bit || DispSafeForFrameIndex(am.disp)));
    if !failed {
      am.baseType := FrameIndexBase;
      am.baseFrameIndex := index;
    }
  }

  // ---------------------------------------------------------------------
  // ISD::SHL by 1, 2 or 3

  /** The shift count of an SHL by a constant 1, 2 or 3 (the constant is
      zero-extended and read as an unsigned), or None. */
  function ShlScaleLog(n: Node): Option<nat>
    requires n.Shl?
  {
    if n.rhs.Const? && U64(n.rhs.value) % TWO_32 in {1, 2, 3} then Some(U64(n.rhs.value) % TWO_32)
    else None
  }

  /** SelectionDAG::isBaseWithConstantOffset: an ADD, or an OR whose
      operands share no set bit, with a constant second operand. */
  predicate IsBaseWithConstantOffset(t: Target, v: Node)
  {
    (v.Add? || (v.Or? && t.haveNoCommonBitsSet(v.lhs, v.rhs))) && v.rhs.Const?
  }

  /** The record after the SHL case, None when it does not apply.  A
      shifted (x + c) becomes index x with (c << k) folded into the
      displacement when the fold is accepted. */
  function ShlMatch(t: Target, n: Node, s: AMState): Option<AMState>
    requires n.Shl?
  {
    if s.indexReg.Some? || s.scale != 1 then None
    else match ShlScaleLog(n)
      case None => None
      case Some(k) =>
        var scaled := s.(scale := Pow2(k));
        var shVal := n.lhs;
        if IsBaseWithConstantOffset(t, shVal) &&
           !OffsetRejected(t, scaled.(indexReg := Some(shVal.lhs)), U64(shVal.rhs.value * Pow2(k)))
        then Some(Folded(scaled.(indexReg := Some(shVal.lhs)), U64(shVal.rhs.value * Pow2(k))))
        else Some(scaled.(indexReg := Some(shVal)))
  }

  /** The SHL case applies exactly when the index is free and the count is
      1, 2 or 3; it scales the index by 2, 4 or 8 and touches nothing but
      the scale, the index and the displacement. */
  lemma ShlMatchIsValid(t: Target, n: Node, s: AMState)
    requires n.Shl? && ValidState(s)
    ensures ShlMatch(t, n, s).Some? <==> s.indexReg.None? && ShlScaleLog(n).Some?
    ensures var r := ShlMatch(t, n, s);
            r.Some? ==>
              MatchOutcome(s, r.value, false) && r.value.scale == Pow2(ShlScaleLog(n).value) &&
              r.value.scale in {2, 4, 8} && !r.value.negateIndex &&
              r.value == s.(scale := r.value.scale, indexReg := r.value.indexReg, disp := r.value.disp) &&
              (r.value.indexReg == Some(n.lhs) || (IsBaseWithConstantOffset(t, n.lhs) && r.value.indexReg == Some(n.lhs.lhs)))
  {
    if ShlMatch(t, n, s).Some? {
      var k := ShlScaleLog(n).value;
      assert Pow2(k) in {2, 4, 8} by {
        assert k == 1 || k == 2 || k == 3;
      }
    }
  }

  /** The folded form computes the same address modulo 2^32:
      x * 2^k + disp' == (x + c) * 2^k + disp, `x` being the value of the
      new index and c the constant of the shifted ADD or disjoint OR. */
  lemma ShlFoldKeepsAddress(t: Target, n: Node, s: AMState, x: int)
    requires n.Shl? && ValidState(s) && IsBaseWithConstantOffset(t, n.lhs)
    requires ShlMatch(t, n, s).Some?
    ensures var r := ShlMatch(t, n, s).value;
            (r.indexReg == Some(n.lhs) && r.disp == s.disp) ||
            (r.indexReg == Some(n.lhs.lhs) &&
             SameLow32(x * r.scale + r.disp, (x + n.lhs.rhs.value) * r.scale + s.disp))
  {
    var r := ShlMatch(t, n, s).value;
    var k := ShlScaleLog(n).value;
    var c := n.lhs.rhs.value;
    var w := s.(scale := Pow2(k), indexReg := Some(n.lhs.lhs));
    var off := U64(c * Pow2(k));
    if !OffsetRejected(t, w, off) {
      FoldedAddsOffset(w, off);
      Wrap64IsWrap32(off, c * Pow2(k));
      assert (x + c) * Pow2(k) == x * Pow2(k) + c * Pow2(k);
      SameLow32Trans(x * Pow2(k) + r.disp, x * Pow2(k) + s.disp + off, (x + c) * Pow2(k) + s.disp);
    }
  }

  method MatchShl(t: Target, n: Node, am: AddressMode) returns (failed: bool)
    requires n.Shl? && am.Valid()
    modifies am
    ensures failed <==> ShlMatch(t, n, old(am.State())).None?
    ensures !failed ==> am.State() == ShlMatch(t, n, old(am.State())).value
    ensures MatchOutcome(old(am.State()), am.State(), failed)
  {
    ShlMatchIsValid(t, n, am.State());
    failed := am.indexReg.Some? || am.scale != 1 || ShlScaleLog(n).None?;
    if !failed {
      var k := ShlScaleLog(n).value;
      am.scale := Pow2(k);
      var shVal := n.lhs;
      var folded := false;
      if IsBaseWithConstantOffset(t, shVal) {
        am.indexReg := Some(shVal.lhs);
        var foldFailed := FoldOffsetIntoAddress(t, U64(shVal.rhs.value * Pow2(k)), am);
        folded := !foldFailed;
      }
      if !folded {
        am.indexReg := Some(shVal);
      }
    }
  }

  // ---------------------------------------------------------------------
  // ISD::MUL (and X86ISD::MUL_IMM, the low half of S/UMUL_LOHI) by 3, 5, 9

  /** The record after the MUL case, None when it does not apply:
      x * K becomes x + x * (K - 1), with the constant of a one-use
      (x' + c) folded as c * K when the fold is accepted. */
  function MulMatch(t: Target, n: Node, s: AMState): Option<AMState>
    requires n.Mul?
  {
    if n.highHalf || s.baseType != RegBase || s.baseReg.Some? || s.indexReg.Some? then None
    else if !n.rhs.Const? || U64(n.rhs.value) !in {3, 5, 9} then None
    else
      var k := U64(n.rhs.value);
      var scaled := s.(scale := k - 1);
      var mulVal := n.lhs;
      var folds := mulVal.Add? && t.hasOneUse(mulVal) && mulVal.rhs.Const? &&
                   !OffsetRejected(t, scaled, U64(mulVal.rhs.value * k));
      var r := if folds then Folded(scaled, U64(mulVal.rhs.value * k)) else scaled;
      var reg := if folds then mulVal.lhs else mulVal;
      Some(r.(indexReg := Some(reg), baseReg := Some(reg)))
  }

  /** The MUL case applies exactly to a record with free base and index
      registers; base and index are then the same register, scaled by 2, 4
      or 8. */
  lemma MulMatchIsValid(t: Target, n: Node, s: AMState)
    requires n.Mul? && ValidState(s)
    ensures MulMatch(t, n, s).Some? <==>
              !n.highHalf && s.baseType == RegBase && s.baseReg.None? && s.indexReg.None? &&
              n.rhs.Const? && U64(n.rhs.value) in {3, 5, 9}
    ensures var r := MulMatch(t, n, s);
            r.Some? ==>
              MatchOutcome(s, r.value, false) && r.value.scale == U64(n.rhs.value) - 1 &&
              r.value.baseReg == r.value.indexReg && r.value.baseReg.Some? &&
              (r.value.baseReg.value == n.lhs || (n.lhs.Add? && r.value.baseReg.value == n.lhs.lhs)) &&
              r.value == s.(scale := r.value.scale, indexReg := r.value.indexReg,
                            baseReg := r.value.baseReg, disp := r.value.disp)
  {
  }

  /** base + index * scale + disp of the new record is the product
      (x + c) * K + disp modulo 2^32, x being the register's value. */
  lemma MulFoldKeepsAddress(t: Target, n: Node, s: AMState, x: int)
    requires n.Mul? && ValidState(s) && MulMatch(t, n, s).Some?
    requires n.lhs.Add? && n.lhs.rhs.Const?
    ensures var r := MulMatch(t, n, s).value;
            var k := U64(n.rhs.value);
            (r.baseReg == Some(n.lhs) && r.disp == s.disp) ||
            (r.baseReg == Some(n.lhs.lhs) &&
             SameLow32(x + x * r.scale + r.disp, (x + n.lhs.rhs.value) * k + s.disp))
  {
    var r := MulMatch(t, n, s).value;
    var k := U64(n.rhs.value);
    var c := n.lhs.rhs.value;
    var scaled := s.(scale := k - 1);
    var off := U64(c * k);
    if t.hasOneUse(n.lhs) && !OffsetRejected(t, scaled, off) {
      FoldedAddsOffset(scaled, off);
      Wrap64IsWrap32(off, c * k);
      assert x + x * (k - 1) == x * k;
      assert (x + c) * k == x * k + c * k;
      SameLow32Trans(x * k + r.disp, x * k + s.disp + off, (x + c) * k + s.disp);
    }
  }

  method MatchMul(t: Target, n: Node, am: AddressMode) returns (failed: bool)
    requires n.Mul? && am.Valid()
    modifies am
    ensures failed <==> MulMatch(t, n, old(am.State())).None?
    ensures !failed ==> am.State() == MulMatch(t, n, old(am.State())).value
    ensures MatchOutcome(old(am.State()), am.State(), failed)
  {
    MulMatchIsValid(t, n, am.State());
    failed := n.highHalf || am.baseType != RegBase || am.baseReg.Some? || am.indexReg.Some? ||
              !n.rhs.Const? || U64(n.rhs.value) !in {3, 5, 9};
    if !failed {
      var k := U64(n.rhs.value);
      am.scale := k - 1;
      var mulVal := n.lhs;
      var reg := mulVal;
      if mulVal.Add? && t.hasOneUse(mulVal) && mulVal.rhs.Const? {
        reg := mulVal.lhs;
        var foldFailed := FoldOffsetIntoAddress(t, U64(mulVal.rhs.value * k), am);
        if foldFailed {
          reg := mulVal;
        }
      }
      am.indexReg := Some(reg);
      am.baseReg := Some(reg);
    }
  }

  // ---------------------------------------------------------------------
  // Rewrites that turn a shift into the scale: AND, SRL, ZERO_EXTEND

  /** foldMaskAndShiftToScale's test on X (looking through an ANY_EXTEND,
      whose operand's known bits it inspects). */
  function ScaleFoldOf(t: Target, shiftAmt: nat, mask: Word, x: Node): Option<nat>
    requires WellFormedTarget(t)
  {
    var anyExtendFrom := if x.AnyExtend? then Some(t.valueBits(x.operand)) else None;
    var inspected := if x.AnyExtend? then x.operand else x;
    MaskShiftScaleLog(shiftAmt, mask, t.valueBits(x), anyExtendFrom, t.knownZero(inspected))
  }

  /** getConstantOperandVal: a constant read as an unsigned number of its
      own width.  A non-negative value of that width is unchanged. */
  function ZExtValue(t: Target, c: Node): (r: nat)
    requires c.Const?
    ensures r < Pow2(t.valueBits(c))
    ensures 0 <= c.value < Pow2(t.valueBits(c)) ==> r == c.value
  {
    var modulus := Pow2(t.valueBits(c));
    if 0 <= c.value < modulus then c.value else c.value % modulus
  }

  /** The three rewrites of (X >> C) & Mask, tried in order: extract,
      scale, BEXTR.  `n` is the node being replaced, `shift` the SRL. */
  function ShiftMaskScaleLog(t: Target, n: Node, mask: Word, shift: Node): (r: Option<nat>)
    requires shift.Srl? && WellFormedTarget(t)
    ensures r.Some? ==> 1 <= r.value <= 3
  {
    if !shift.rhs.Const? || !t.hasOneUse(shift) then None
    else
      var amt := ZExtValue(t, shift.rhs);
      var extract := ExtractScaleLog(amt, mask);
      if extract.Some? then extract
      else
        var scale := ScaleFoldOf(t, amt, mask, shift.lhs);
        if scale.Some? then scale
        else if t.hasOneUse(n) then BextrScaleLog(t.preferBextr, mask)
        else None
  }

  /** foldMaskedShiftToScaledMask: (X << C) & Mask, looking through a
      one-use ANY_EXTEND of an i32 shift when the mask is a uint32. */
  function ScaledMaskScaleLog(t: Target, n: Node): (r: Option<nat>)
    requires n.And? && n.rhs.Const?
    ensures r.Some? ==> 1 <= r.value <= 3 && t.hasOneUse(n)
  {
    var mask := n.rhs.value;
    var shift := if n.lhs.AnyExtend? && t.hasOneUse(n.lhs) && t.valueBits(n.lhs.operand) == 32 &&
                    0 <= mask < TWO_32
                 then n.lhs.operand else n.lhs;
    if !shift.Shl? || !shift.rhs.Const? then None
    else if !t.hasOneUse(n) || !t.hasOneUse(shift) then None
    else
      var amt := U64(shift.rhs.value) % TWO_32;
      if amt in {1, 2, 3} then Some(amt) else None
  }

  /** The AND case: the shift rewrites when the mask's operand is an SRL,
      then the scaled-mask rewrite.  The shift rewrites read the mask with
      getConstantOperandVal, zero-extended from the AND's width. */
  function AndScaleLog(t: Target, n: Node): (r: Option<nat>)
    requires n.And? && WellFormedTarget(t)
    ensures r.Some? ==> 1 <= r.value <= 3 && n.rhs.Const?
  {
    if !n.rhs.Const? then None
    else
      var mask := Trunc(WordOf(n.rhs.value), t.valueBits(n));
      var viaShift := if n.lhs.Srl? then ShiftMaskScaleLog(t, n, mask, n.lhs) else None;
      if viaShift.Some? then viaShift else ScaledMaskScaleLog(t, n)
  }

  /** The SRL case: (X & Mask) >> C is handed to foldMaskAndShiftToScale
      with the mask shifted by C and the SRL as the shift.  The mask is
      read with getConstantOperandVal, zero-extended from the AND's
      width. */
  function SrlScaleLog(t: Target, n: Node): (r: Option<nat>)
    requires n.Srl? && WellFormedTarget(t)
    ensures r.Some? ==> 1 <= r.value <= 3 && t.hasOneUse(n) && n.lhs.And? && n.rhs.Const?
  {
    if !n.lhs.And? || !n.rhs.Const? || !n.lhs.rhs.Const? || !t.hasOneUse(n) then None
    else
      var mask := Trunc(WordOf(n.lhs.rhs.value), t.valueBits(n.lhs));
      ScaleFoldOf(t, ZExtValue(t, n.rhs), Shr(mask, ZExtValue(t, n.rhs)), n.lhs.lhs)
  }

  /** The i32 mask -16, zero-extended and shifted right by 2: bits 2 to
      29. */
  lemma ShiftedSignedMaskBits()
    ensures forall i :: 0 <= i < 64 ==> (Shr(Trunc(WordOf(-16), 32), 2)[i] <==> 2 <= i < 30)
  {
    assert Pow2(4) == 16;
    forall i | 0 <= i < 64
      ensures Shr(Trunc(WordOf(-16), 32), 2)[i] <==> 2 <= i < 30
    {
      if i + 2 < 64 {
        WordOfMinusPow2(4, i + 2);
      }
    }
  }

  /** A 32-bit X with no known-zero bit, shifted by 2 under a mask of bits
      2 to 29, folds to scale log 2. */
  lemma RunMaskFoldsToScale(mask: Word)
    requires forall i :: 0 <= i < 64 ==> (mask[i] <==> 2 <= i < 30)
    ensures MaskShiftScaleLog(2, mask, 32, None, Zero()) == Some(2)
  {
    ZerosFromSpec(mask, 0);
    assert mask[2];
    ClzSpec(mask, 64);
    assert mask[29];
    OnesFromSpec(Shr(mask, 2), 0);
    assert Shr(mask, 2)[27] && !Shr(mask, 2)[28];
    assert HighOnes(32, 0) == Zero();
  }

  /** An i32 (X & -16) >> 2 becomes X >> 4 scaled by 4 when no bit of X is
      known zero: the mask 0xFFFFFFF0 >> 2 has 34 leading zeros, exactly
      the 32 + 2 the narrower shift needs. */
  lemma SignedMaskUnderSrlFoldsToScale(t: Target, x: Node)
    requires WellFormedTarget(t) && !x.AnyExtend?
    requires t.valueBits(x) == 32 && t.knownZero(x) == Zero()
    requires t.valueBits(And(x, Const(-16))) == 32 && t.hasOneUse(Srl(And(x, Const(-16)), Const(2)))
    ensures SrlScaleLog(t, Srl(And(x, Const(-16)), Const(2))) == Some(2)
  {
    Pow2Monotone(2, t.valueBits(Const(2)));
    assert Pow2(2) == 4;
    ShiftedSignedMaskBits();
    RunMaskFoldsToScale(Shr(Trunc(WordOf(-16), 32), 2));
  }

  /** An i8 count 0xFD is the unsigned 253, so ScaleDown exceeds any leading
      zero count: without BEXTR, the AND case refuses (X >> 253) & Mask for
      every mask. */
  lemma WideCountRefusesScale(t: Target, x: Node, c: int)
    requires WellFormedTarget(t) && !t.preferBextr && t.valueBits(Const(-3)) == 8
    ensures AndScaleLog(t, And(Srl(x, Const(-3)), Const(c))) == None
  {
    assert Pow2(8) == 256;
    assert ZExtValue(t, Const(-3)) == 253;
  }

  /** The ZERO_EXTEND case: a one-use SHL by at most 3 that shifts out only
      zero bits is widened, and its count becomes the scale. */
  function ZextScaleLog(t: Target, n: Node): (r: Option<nat>)
    requires n.ZeroExtend? && WellFormedTarget(t)
    ensures r.Some? ==> r.value <= 3 && n.operand.Shl? &&
                        t.maskedValueIsZero(n.operand.lhs, HighOnes(t.valueBits(n.operand), r.value))
  {
    var shl := n.operand;
    if !shl.Shl? || !t.hasOneUse(shl) || !shl.rhs.Const? || U64(shl.rhs.value) > 3 then None
    else
      var amt := U64(shl.rhs.value);
      if t.maskedValueIsZero(shl.lhs, HighOnes(t.valueBits(shl), amt)) then Some(amt) else None
  }

  /** The record side of these rewrites: the rewritten node becomes the
      index, scaled by 2^log, when the index is free. */
  function ScaledIndexMatch(log: Option<nat>, n: Node, s: AMState): (r: Option<AMState>)
    requires ValidState(s) && (log.Some? ==> log.value <= 3)
    ensures r.Some? ==> MatchOutcome(s, r.value, false) && r.value.scale in {1, 2, 4, 8}
  {
    if s.indexReg.Some? || log.None? then None
    else
      var k := log.value;
      assert Pow2(k) in {1, 2, 4, 8} by {
        assert k == 0 || k == 1 || k == 2 || k == 3;
      }
      Some(s.(scale := Pow2(k), indexReg := Some(Derived(n))))
  }

  method MatchScaledIndex(log: Option<nat>, n: Node, am: AddressMode) returns (failed: bool)
    requires am.Valid() && (log.Some? ==> log.value <= 3)
    modifies am
    ensures failed <==> old(am.indexReg).Some? || log.None?
    ensures !failed ==>
              am.State() == old(am.State()).(scale := Pow2(log.value), indexReg := Some(Derived(n))) &&
              am.scale in {1, 2, 4, 8}
    ensures MatchOutcome(old(am.State()), am.State(), failed)
  {
    failed := am.indexReg.Some? || am.scale != 1 || log.None?;
    if !failed {
      var k := log.value;
      assert Pow2(k) in {1, 2, 4, 8} by {
        assert k == 0 || k == 1 || k == 2 || k == 3;
      }
      am.scale := Pow2(k);
      am.indexReg := Some(Derived(n));
    }
  }

  // ---------------------------------------------------------------------
  // ISD::SUB

  /** The profitability count of the SUB case, computed once the LHS is
      matched into `after` from `before`: a negative count is a win.  A
      negated index is only chosen when it saves something: a base register
      with other uses or a frame index, or a LHS that brought at least two of
      symbol, displacement and segment; when the RHS costs an extra move, it
      takes both. */
  function SubCost(t: Target, rhs: Node, before: AMState, after: AMState): (cost: int)
    ensures var savedMove := (after.baseType == RegBase && after.baseReg.Some? &&
                              !t.hasOneUse(after.baseReg.value)) || after.baseType == FrameIndexBase;
            var twoGains := (HasSymbolicDisplacement(after) && !HasSymbolicDisplacement(before) &&
                             after.disp != 0 && before.disp == 0) ||
                            (HasSymbolicDisplacement(after) && !HasSymbolicDisplacement(before) &&
                             after.segment.Some? && before.segment.None?) ||
                            (after.disp != 0 && before.disp == 0 && after.segment.Some? && before.segment.None?);
            cost < 0 ==>
              (savedMove || twoGains) &&
              (!t.hasOneUse(rhs) || rhs.CopyFromReg? ==> savedMove && twoGains)
  {
    var extraMove := !t.hasOneUse(rhs) || rhs.CopyFromReg? || rhs.Truncate? || rhs.AnyExtend? ||
                     (rhs.ZeroExtend? && t.valueBits(rhs.operand) == 32);
    var savedMove := (after.baseType == RegBase && after.baseReg.Some? && !t.hasOneUse(after.baseReg.value)) ||
                     after.baseType == FrameIndexBase;
    var gains := (if HasSymbolicDisplacement(after) && !HasSymbolicDisplacement(before) then 1 else 0) +
                 (if after.disp != 0 && before.disp == 0 then 1 else 0) +
                 (if after.segment.Some? && before.segment.None? then 1 else 0);
    (if extraMove then 1 else 0) - (if savedMove then 1 else 0) - (if gains >= 2 then 1 else 0)
  }

  /** A SUB whose LHS matches leaves the RHS as a negated, unscaled index,
      when the index is free afterwards, the record is not RIP-relative and
      the count says it pays; otherwise the match fails. */
  function SubMatch(t: Target, n: Node, s: AMState, depth: nat): (r: Option<AMState>)
    requires n.Sub? && WellFormedTarget(t) && ValidState(s)
    ensures r.Some? ==> MatchOutcome(s, r.value, false) && r.value.negateIndex
    decreases n, 1
  {
    match RecursiveMatch(t, n.lhs, s, depth + 1)
    case None => None
    case Some(l) =>
      if l.indexReg.Some? || IsRipRelative(l) || SubCost(t, n.rhs, s, l) >= 0 then None
      else Some(l.(indexReg := Some(n.rhs), negateIndex := true, scale := 1))
  }

  /** The SUB case on the record; a failure restores it. */
  method MatchSub(t: Target, n: Node, am: AddressMode, depth: nat) returns (failed: bool, ghost lhsMatched: AMState)
    requires n.Sub? && am.Valid() && WellFormedTarget(t)
    modifies am
    ensures Yields(failed, am.State(), SubMatch(t, n, old(am.State()), depth))
    ensures MatchOutcome(old(am.State()), am.State(), failed)
    ensures !failed ==>
              MatchOutcome(old(am.State()), lhsMatched, false) &&
              lhsMatched.indexReg.None? && !IsRipRelative(lhsMatched) &&
              SubCost(t, n.rhs, old(am.State()), lhsMatched) < 0 &&
              am.State() == lhsMatched.(indexReg := Some(n.rhs), negateIndex := true, scale := 1)
    decreases n, 1
  {
    var backup := am.State();
    failed := MatchAddressRecursively(t, n.lhs, am, depth + 1);
    lhsMatched := am.State();
    if !failed {
      failed := am.indexReg.Some? || IsRipRelative(am.State()) || SubCost(t, n.rhs, backup, am.State()) >= 0;
      if !failed {
        am.indexReg := Some(n.rhs);
        am.negateIndex := true;
        am.scale := 1;
      }
    }
    if failed {
      am.Restore(backup);
    }
  }

  // ---------------------------------------------------------------------
  // ISD::ADD (and an OR of disjoint operands)

  /** One attempt of matchAdd: both operands into the record, the first
      operand first (the right one when `swapped`). */
  function BothMatch(t: Target, n: Node, swapped: bool, s: AMState, depth: nat): (r: Option<AMState>)
    requires (n.Add? || n.Or?) && WellFormedTarget(t) && ValidState(s)
    ensures r.Some? ==> MatchOutcome(s, r.value, false)
    decreases n, 0
  {
    var first := if swapped then n.rhs else n.lhs;
    var second := if swapped then n.lhs else n.rhs;
    match RecursiveMatch(t, first, s, depth + 1)
    case None => None
    case Some(s1) => RecursiveMatch(t, second, s1, depth + 1)
  }

  /** The attempt on the record; a failed attempt restores it. */
  method MatchBothOperands(t: Target, n: Node, swapped: bool, am: AddressMode, depth: nat) returns (failed: bool)
    requires (n.Add? || n.Or?) && am.Valid() && WellFormedTarget(t)
    modifies am
    ensures Yields(failed, am.State(), BothMatch(t, n, swapped, old(am.State()), depth))
    ensures MatchOutcome(old(am.State()), am.State(), failed)
    decreases n, 0
  {
    var backup := am.State();
    var first, second := if swapped then n.rhs else n.lhs, if swapped then n.lhs else n.rhs;
    failed := MatchAddressRecursively(t, first, am, depth + 1);
    if !failed {
      failed := MatchAddressRecursively(t, second, am, depth + 1);
    }
    if failed {
      am.Restore(backup);
    }
  }

  /** matchAdd: both operands into the record, in either order; failing
      that, the operands as base and index when both registers are free. */
  function AddMatch(t: Target, n: Node, s: AMState, depth: nat): (r: Option<AMState>)
    requires (n.Add? || n.Or?) && WellFormedTarget(t) && ValidState(s)
    ensures r.Some? ==> MatchOutcome(s, r.value, false)
    ensures s.baseType == RegBase && s.baseReg.None? && s.indexReg.None? ==> r.Some?
    decreases n, 1
  {
    var direct := BothMatch(t, n, false, s, depth);
    if direct.Some? then direct
    else
      var commuted := BothMatch(t, n, true, s, depth);
      if commuted.Some? then commuted
      else if s.baseType == RegBase && s.baseReg.None? && s.indexReg.None? then
        Some(s.(baseReg := Some(n.lhs), indexReg := Some(n.rhs), scale := 1))
      else None
  }

  /** The ADD case on the record.  `fallback` tells that both orders failed
      and the operands went into the free base and index registers. */
  method MatchAdd(t: Target, n: Node, am: AddressMode, depth: nat) returns (failed: bool, ghost fallback: bool)
    requires (n.Add? || n.Or?) && am.Valid() && WellFormedTarget(t)
    modifies am
    ensures Yields(failed, am.State(), AddMatch(t, n, old(am.State()), depth))
    ensures MatchOutcome(old(am.State()), am.State(), failed)
    ensures fallback <==>
              BothMatch(t, n, false, old(am.State()), depth).None? &&
              BothMatch(t, n, true, old(am.State()), depth).None? &&
              old(am.baseType) == RegBase && old(am.baseReg).None? && old(am.indexReg).None?
    ensures fallback ==>
              !failed && am.State() == old(am.State()).(baseReg := Some(n.lhs), indexReg := Some(n.rhs), scale := 1)
    decreases n, 1
  {
    fallback := false;
    failed := MatchBothOperands(t, n, false, am, depth);
    if failed {
      failed := MatchBothOperands(t, n, true, am, depth);
      if failed && am.baseType == RegBase && am.baseReg.None? && am.indexReg.None? {
        am.baseReg := Some(n.lhs);
        am.indexReg := Some(n.rhs);
        am.scale := 1;
        failed := false;
        fallback := true;
      }
    }
  }

  // ---------------------------------------------------------------------
  // matchAddressRecursively

  /** A step's result agrees with its specification: it fails exactly when
      the specification gives None, and otherwise leaves that record. */
  predicate Yields(failed: bool, after: AMState, spec: Option<AMState>)
  {
    (failed <==> spec.None?) && (!failed ==> after == spec.value)
  }

  /** matchAddressBase: the node as base register when that slot is free,
      else as index register with scale 1, else failure. */
  function BaseMatch(n: Node, s: AMState): (r: Option<AMState>)
    requires ValidState(s)
    ensures r.Some? ==> MatchOutcome(s, r.value, false)
    ensures r.None? <==> (s.baseType == FrameIndexBase || s.baseReg.Some?) && s.indexReg.Some?
  {
    if s.baseType == RegBase && s.baseReg.None? then Some(s.(baseReg := Some(n)))
    else if s.indexReg.None? then Some(s.(indexReg := Some(n), scale := 1))
    else None
  }

  /** The opcode cases of matchAddressRecursively, for a record that is not
      RIP-relative: None when the case does not apply, an opcode without a
      case included. */
  function NodeMatch(t: Target, n: Node, s: AMState, depth: nat): (r: Option<AMState>)
    requires WellFormedTarget(t) && ValidState(s)
    ensures r.Some? ==> MatchOutcome(s, r.value, false)
    decreases n, 2
  {
    match n
    case LocalRecover(mcSym) =>
      if HasSymbolicDisplacement(s) || s.disp != 0 || mcSym.None? then None
      else Some(s.(symbol := s.symbol.(mcSym := mcSym)))
    case Const(v) =>
      if OffsetRejected(t, s, v) then None
      else
        FoldedIsValid(t, s, v);
        Some(Folded(s, v))
    case Wrapper(ripRel, sym) =>
      WrapperMatchIsValid(t, ripRel, sym, s);
      WrapperMatch(t, ripRel, sym, s)
    case Load(addr, space) =>
      if addr == Const(0) && s.segment.None? && t.tlsSegmentLoads && (space == GsSpace || space == FsSpace)
      then Some(s.(segment := Some(PhysReg(if space == GsSpace then GsSegment else FsSegment))))
      else None
    case FrameIndex(index) =>
      if s.baseType == RegBase && s.baseReg.None? && (!t.is64Bit || DispSafeForFrameIndex(s.disp))
      then Some(s.(baseType := FrameIndexBase, baseFrameIndex := index))
      else None
    case Shl(_, _) =>
      ShlMatchIsValid(t, n, s);
      ShlMatch(t, n, s)
    case Srl(_, _) => ScaledIndexMatch(SrlScaleLog(t, n), n, s)
    case Mul(_, _, _) =>
      MulMatchIsValid(t, n, s);
      MulMatch(t, n, s)
    case Sub(_, _) => SubMatch(t, n, s, depth)
    case Add(_, _) => AddMatch(t, n, s, depth)
    case Or(lhs, rhs) => if t.haveNoCommonBitsSet(lhs, rhs) then AddMatch(t, n, s, depth) else None
    case And(_, _) => ScaledIndexMatch(AndScaleLog(t, n), n, s)
    case ZeroExtend(_) => ScaledIndexMatch(ZextScaleLog(t, n), n, s)
    case _ => None
  }

  /** matchAddressRecursively on the record: past depth 5 the node is only
      a register; a RIP-relative record only absorbs constants; otherwise
      the opcode case, and matchAddressBase when it does not apply.  The
      match fails only when both registers are taken or the record is
      RIP-relative. */
  function RecursiveMatch(t: Target, n: Node, s: AMState, depth: nat): (r: Option<AMState>)
    requires WellFormedTarget(t) && ValidState(s)
    ensures r.Some? ==> MatchOutcome(s, r.value, false)
    ensures r.None? ==> (s.baseType == FrameIndexBase || s.baseReg.Some?) &&
                        (s.indexReg.Some? || IsRipRelative(s))
    decreases n, 3
  {
    if depth > 5 then BaseMatch(n, s)
    else if IsRipRelative(s) then
      if (HasOffsetlessSymbol(s) || s.symbol.jt == -1) && n.Const? && !OffsetRejected(t, s, n.value) then
        FoldedIsValid(t, s, n.value);
        Some(Folded(s, n.value))
      else None
    else
      var r := NodeMatch(t, n, s, depth);
      if r.Some? then r else BaseMatch(n, s)
  }

  /** The opcode cases on the record; a failed case leaves the record as it
      was. */
  method MatchNode(t: Target, n: Node, am: AddressMode, depth: nat) returns (failed: bool)
    requires am.Valid() && WellFormedTarget(t)
    modifies am
    ensures Yields(failed, am.State(), NodeMatch(t, n, old(am.State()), depth))
    ensures MatchOutcome(old(am.State()), am.State(), failed)
    decreases n, 2
  {
    ghost var spec := NodeMatch(t, n, am.State(), depth);
    failed := true;
    ghost var ignored: AMState;
    ghost var ignoredFallback: bool;
    match n {
      case LocalRecover(mcSym) =>
        failed := MatchLocalRecover(mcSym, am);
      case Const(v) =>
        failed := FoldOffsetIntoAddress(t, v, am);
      case Wrapper(ripRel, sym) =>
        failed := MatchWrapper(t, ripRel, sym, am);
      case Load(addr, space) =>
        failed := MatchLoadInAddress(t, addr, space, am);
      case FrameIndex(index) =>
        failed := MatchFrameIndex(t, index, am);
      case Shl(_, _) =>
        failed := MatchShl(t, n, am);
      case Srl(_, _) =>
        failed := MatchScaledIndex(SrlScaleLog(t, n), n, am);
      case Mul(_, _, _) =>
        failed := MatchMul(t, n, am);
      case Sub(_, _) =>
        failed, ignored := MatchSub(t, n, am, depth);
      case Add(_, _) =>
        failed, ignoredFallback := MatchAdd(t, n, am, depth);
      case Or(lhs, rhs) =>
        if t.haveNoCommonBitsSet(lhs, rhs) {
          failed, ignoredFallback := MatchAdd(t, n, am, depth);
        }
      case And(_, _) =>
        failed := MatchScaledIndex(AndScaleLog(t, n), n, am);
      case ZeroExtend(_) =>
        failed := MatchScaledIndex(ZextScaleLog(t, n), n, am);
      case _ =>
    }
  }

  /** matchAddressRecursively on the record.  Past depth 5, and for a node
      no opcode case takes, the node goes into a free register. */
  method MatchAddressRecursively(t: Target, n: Node, am: AddressMode, depth: nat) returns (failed: bool)
    requires am.Valid() && WellFormedTarget(t)
    modifies am
    ensures Yields(failed, am.State(), RecursiveMatch(t, n, old(am.State()), depth))
    ensures MatchOutcome(old(am.State()), am.State(), failed)
    ensures depth > 5 ==> Yields(failed, am.State(), BaseMatch(n, old(am.State())))
    ensures depth <= 5 && !IsRipRelative(old(am.State())) && NodeMatch(t, n, old(am.State()), depth).None? ==>
              Yields(failed, am.State(), BaseMatch(n, old(am.State())))
    ensures failed ==> (old(am.baseType) == FrameIndexBase || old(am.baseReg).Some?) &&
                       (old(am.indexReg).Some? || IsRipRelative(old(am.State())))
    ensures IsRipRelative(old(am.State())) && depth <= 5 && !failed ==>
              n.Const? && am.State() == Folded(old(am.State()), n.value)
    decreases n, 3
  {
    if depth > 5 {
      failed := MatchAddressBase(n, am);
    } else if IsRipRelative(am.State()) {
      failed := true;
      if (HasOffsetlessSymbol(am.State()) || am.symbol.jt == -1) && n.Const? {
        failed := FoldOffsetIntoAddress(t, n.value, am);
      }
    } else {
      failed := MatchNode(t, n, am, depth);
      if failed {
        failed := MatchAddressBase(n, am);
      }
    }
  }

  // ---------------------------------------------------------------------
  // matchAddress

  /** matchAddress: the recursive match from depth 0 and, when it succeeds,
      the two post-processing rewrites. */
  method MatchAddress(t: Target, n: Node, am: AddressMode) returns (failed: bool, ghost matched: AMState)
    requires am.Valid() && WellFormedTarget(t)
    modifies am
    ensures ValidState(am.State())
    ensures failed ==> am.State() == old(am.State()) &&
                       (old(am.baseType) == FrameIndexBase || old(am.baseReg).Some?) &&
                       (old(am.indexReg).Some? || IsRipRelative(old(am.State())))
    ensures !failed ==> MatchOutcome(old(am.State()), matched, false) && am.State() == PostProcessed(t, matched)
    ensures Yields(failed, matched, RecursiveMatch(t, n, old(am.State()), 0))
    ensures old(am.segment).Some? ==> am.segment == old(am.segment)
  {
    failed := MatchAddressRecursively(t, n, am, 0);
    matched := am.State();
    if !failed {
      ApplyPostProcessing(t, am);
    }
  }

  /** The two rewrites matchAddress applies in place to a successful
      match. */
  method ApplyPostProcessing(t: Target, am: AddressMode)
    modifies am
    ensures am.State() == PostProcessed(t, old(am.State()))
  {
    if am.scale == 2 && am.baseType == RegBase && am.baseReg.None? {
      am.baseReg := am.indexReg;
      am.scale := 1;
    }
    if (t.codeModel == Small || t.codeModel == Kernel) && t.is64Bit && am.scale == 1 &&
       am.baseType == RegBase && am.baseReg.None? && am.indexReg.None? &&
       am.symbol.symbolFlags == 0 && HasSymbolicDisplacement(am.State()) {
      am.baseReg := Some(PhysReg(Rip));
    }
  }

  // ---------------------------------------------------------------------
  // selectLEAAddr

  /** An X86ISD ADD, SUB, ADC or SBB whose flag result is used on both
      sides of an ADD: an LEA leaves the flags alone. */
  predicate AddOfFlagSetters(t: Target, n: Node)
  {
    n.Add? && t.mathWithLiveFlags(n.lhs) && t.mathWithLiveFlags(n.rhs)
  }

  /** The complexity selectLEAAddr gives a matched record.  A frame index,
      or a symbol in 64-bit mode, alone scores enough for an LEA. */
  function LeaComplexity(t: Target, n: Node, s: AMState): (c: nat)
    ensures s.baseType == FrameIndexBase ==> c > 2
    ensures t.is64Bit && HasSymbolicDisplacement(s) ==> c > 2
  {
    var base := if s.baseType == RegBase && s.baseReg.Some? then 1
                else if s.baseType == FrameIndexBase then 4 else 0;
    var regs := base + (if s.indexReg.Some? then 1 else 0) + (if s.scale > 1 then 1 else 0);
    var withSymbol := if !HasSymbolicDisplacement(s) then regs else if t.is64Bit then 4 else regs + 2;
    withSymbol + (if AddOfFlagSetters(t, n) then 1 else 0) + (if s.disp != 0 then 1 else 0)
  }

  /** base + index, or a scaled index alone, without displacement, symbol
      or flag-setting operands is cheaper as an ADD or shift than as an
      LEA; base + index + displacement is not. */
  lemma LeaRejectsTwoParts(t: Target, n: Node, s: AMState)
    requires s.baseType == RegBase && !HasSymbolicDisplacement(s) && !AddOfFlagSetters(t, n)
    ensures s.baseReg.Some? && s.indexReg.Some? && s.scale == 1 && s.disp == 0 ==>
              LeaComplexity(t, n, s) <= 2
    ensures s.baseReg.None? && s.indexReg.Some? && s.scale > 1 && s.disp == 0 ==>
              LeaComplexity(t, n, s) <= 2
    ensures s.baseReg.Some? && s.indexReg.Some? && s.disp != 0 ==> LeaComplexity(t, n, s) > 2
  {
  }

  /** The five operands of the record (the negated index as a NEG). */
  function OperandsOf(s: AMState): (ops: AddressOperands)
    requires s.symbol.jt >= -1 && (s.negateIndex ==> s.indexReg.Some?)
    ensures ops.scale == s.scale && ops.segment == s.segment && ops.disp == DispOperandOf(s)
    ensures ops.index.Some? <==> s.indexReg.Some?
    ensures ops.base.NoBaseRegister? <==> s.baseType == RegBase && s.baseReg.None?
  {
    AddressOperands(if s.baseType == FrameIndexBase then FrameIndexOperand(s.baseFrameIndex)
                    else if s.baseReg.Some? then RegOperand(s.baseReg.value) else NoBaseRegister,
                    s.scale,
                    if s.negateIndex then Some(Negated(s.indexReg.value)) else s.indexReg,
                    DispOperandOf(s), s.segment)
  }

  /** The record selectLEAAddr judges: `n` matched into an empty record
      whose segment slot is blocked (an LEA takes no segment), post-processed,
      with the segment slot cleared again.  The match cannot fail, the base
      register being free. */
  function LeaRecord(t: Target, n: Node): (r: AMState)
    requires WellFormedTarget(t)
    ensures ValidState(r) && r.segment.None?
  {
    var blocked := EmptyState.(segment := Some(PhysReg(NoRegister)));
    PostProcessed(t, RecursiveMatch(t, n, blocked, 0).value).(segment := None)
  }

  /** selectLEAAddr: keeps the matched mode only when its complexity is
      above 2, and then gives its operands. */
  method SelectLeaAddr(t: Target, n: Node) returns (ok: bool, ops: AddressOperands)
    requires WellFormedTarget(t)
    ensures ok <==> LeaComplexity(t, n, LeaRecord(t, n)) > 2
    ensures ok ==> ops == OperandsOf(LeaRecord(t, n))
  {
    var am := new AddressMode();
    var copy := am.segment;
    am.segment := Some(PhysReg(NoRegister));
    ghost var matched;
    var failed;
    failed, matched := MatchAddress(t, n, am);
    assert !failed;
    am.segment := copy;
    assert am.State() == LeaRecord(t, n);

    var complexity := 0;
    if am.baseType == RegBase && am.baseReg.Some? {
      complexity := 1;
    } else if am.baseType == FrameIndexBase {
      complexity := 4;
    }
    if am.indexReg.Some? {
      complexity := complexity + 1;
    }
    if am.scale > 1 {
      complexity := complexity + 1;
    }
    if HasSymbolicDisplacement(am.State()) {
      if t.is64Bit {
        complexity := 4;
      } else {
        complexity := complexity + 2;
      }
    }
    if AddOfFlagSetters(t, n) {
      complexity := complexity + 1;
    }
    if am.disp != 0 {
      complexity := complexity + 1;
    }

    ops := AddressOperands(NoBaseRegister, 1, None, ImmDisp(0), None);
    ok := complexity > 2;
    if ok {
      ops := GetAddressOperands(am);
    }
  }
}
