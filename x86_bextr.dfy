/** matchBEXTRFromAndImm: turning (X >> Shift) & Mask into a bit-field
    extract (BEXTR of BMI1, BEXTRI of TBM) or, on BMI2 machines without a
    fast BEXTR, into BZHI followed by a shift (Intel SDM Vol. 2, BEXTR and
    BZHI entries). */
module X86Bextr {
  import opened Wrappers
  import opened X86Words

  datatype Features = Features(tbm: bool, bmi: bool, fastBextr: bool, bmi2: bool)

  /** The opcode of operand 0 of the AND. */
  datatype ShiftKind = Srl | Sra | NotAShift

  datatype BitExtract =
    | NoMatch
      /** BEXTRI (TBM, `immediate`) or BEXTR (BMI1, the control in a
          register). */
    | Bextr(immediate: bool, control: nat)
      /** BZHI keeping the low `index` bits, then SHR by `shift`. */
    | BzhiThenShr(index: nat, shift: nat)

  /** The start field of a BEXTR control word: bits 7:0. */
  function ControlStart(control: nat): nat { control % 256 }

  /** The length field of a BEXTR control word: bits 15:8. */
  function ControlLength(control: nat): nat { control / 256 % 256 }

  function PreferBextr(f: Features): bool
  {
    f.tbm || (f.bmi && f.fastBextr)
  }

  /** The selection.  `width` is the bit width of the AND (a legal scalar
      type: 8, 16, 32 or 64); `mask` and `shift` are the constant operands
      (zero-extended), `None` when not constant. */
  function MatchBextrFromAndImm(f: Features, shiftOp: ShiftKind, shiftHasOneUse: bool,
                                width: nat, mask: Option<Word>, shift: Option<nat>): (r: BitExtract)
    requires width in {8, 16, 32, 64}
    ensures r != NoMatch ==>
              shiftOp != NotAShift && shiftHasOneUse && width in {32, 64} &&
              mask.Some? && shift.Some? && IsMask64(mask.value) &&
              shift.value + Popcount(mask.value) <= width &&
              !(shift.value == 8 && Popcount(mask.value) == 8)
    ensures r.Bextr? ==>
              PreferBextr(f) && (r.immediate <==> f.tbm) &&
              ControlStart(r.control) == shift.value &&
              ControlLength(r.control) == Popcount(mask.value)
    ensures r.BzhiThenShr? ==>
              !PreferBextr(f) && f.bmi2 && Popcount(mask.value) > 32 &&
              r.index == shift.value + Popcount(mask.value) && r.shift == shift.value
  {
    var prefer := PreferBextr(f);
    if !prefer && !f.bmi2 then NoMatch
    else if shiftOp == NotAShift || !shiftHasOneUse then NoMatch
    else if width != 32 && width != 64 then NoMatch
    else if mask.None? || shift.None? then NoMatch
    else if !IsMask64(mask.value) then NoMatch
    else
      var s, maskSize := shift.value, Popcount(mask.value);
      if s == 8 && maskSize == 8 then NoMatch
      else if s + maskSize > width then NoMatch
      else if !prefer && maskSize <= 32 then NoMatch
      else if !prefer then BzhiThenShr(s + maskSize, s)
      // Shift | (MaskSize << 8): the shift is below 64, so the or is a sum.
      else Bextr(f.tbm, s + maskSize * 256)
  }

  /** BEXTR on a `width`-bit source: the `length` bits starting at bit
      `start`, zero-filled above the source. */
  function BextrOp(src: Word, control: nat, width: nat): (r: Word)
    ensures forall i :: 0 <= i < 64 ==>
              (r[i] <==> i < ControlLength(control) && i + ControlStart(control) < width &&
                         i + ControlStart(control) < 64 && src[i + ControlStart(control)])
  {
    var start, len := ControlStart(control), ControlLength(control);
    seq(64, i requires 0 <= i < 64 => i < len && i + start < width && i + start < 64 && src[i + start])
  }

  /** BZHI on a `width`-bit source: bits from `index` (its low byte) up are
      cleared when it is below the width. */
  function BzhiOp(src: Word, index: nat, width: nat): (r: Word)
    ensures forall i :: 0 <= i < 64 ==>
              (r[i] <==> i < width && (index % 256 >= width || i < index % 256) && src[i])
  {
    seq(64, i requires 0 <= i < 64 => i < width && (index % 256 >= width || i < index % 256) && src[i])
  }

  /** The field (X >> s) & LowOnes(k), shifted logically or arithmetically. */
  function ShiftedField(shiftOp: ShiftKind, width: nat, m: Word, s: nat, src: Word): Word
    requires 1 <= width <= 64
  {
    And(if shiftOp == Srl then Shr(src, s) else AShr(src, s, width), m)
  }

  /** When the field lies inside the source, bit i of it is source bit
      i + s for i < k, whichever shift produced it. */
  lemma ShiftedFieldBits(shiftOp: ShiftKind, width: nat, k: nat, s: nat, src: Word)
    requires 1 <= width <= 64 && s + k <= width
    ensures forall i :: 0 <= i < 64 ==>
              (ShiftedField(shiftOp, width, LowOnes(k), s, src)[i] <==> i < k && src[i + s])
  {
  }

  /** A BEXTR whose start is s and length k extracts that field. */
  lemma BextrIsField(shiftOp: ShiftKind, src: Word, control: nat, width: nat, k: nat, s: nat)
    requires 1 <= width <= 64 && s + k <= width
    requires ControlStart(control) == s && ControlLength(control) == k
    ensures BextrOp(src, control, width) == ShiftedField(shiftOp, width, LowOnes(k), s, src)
  {
    var b := BextrOp(src, control, width);
    var field := ShiftedField(shiftOp, width, LowOnes(k), s, src);
    ShiftedFieldBits(shiftOp, width, k, s, src);
    assert forall i :: 0 <= i < 64 ==> b[i] == field[i];
  }

  /** Bit i of BZHI at s + k followed by a shift by s. */
  lemma BzhiShrBit(src: Word, width: nat, k: nat, s: nat, i: nat)
    requires s + k <= width <= 64 && i < 64
    ensures Shr(BzhiOp(src, s + k, width), s)[i] <==> i < k && src[i + s]
  {
    var bz := BzhiOp(src, s + k, width);
    assert (s + k) % 256 == s + k;
    if i + s < 64 {
      assert bz[i + s] <==> i + s < width && (s + k >= width || i < k) && src[i + s];
    }
  }

  /** BZHI at s + k followed by a shift by s extracts the same field. */
  lemma BzhiShrIsField(shiftOp: ShiftKind, src: Word, width: nat, k: nat, s: nat)
    requires 1 <= width <= 64 && s + k <= width
    ensures Shr(BzhiOp(src, s + k, width), s) == ShiftedField(shiftOp, width, LowOnes(k), s, src)
  {
    var z := Shr(BzhiOp(src, s + k, width), s);
    var field := ShiftedField(shiftOp, width, LowOnes(k), s, src);
    ShiftedFieldBits(shiftOp, width, k, s, src);
    forall i | 0 <= i < 64
      ensures z[i] == field[i]
    {
      BzhiShrBit(src, width, k, s, i);
    }
  }

  /** The instructions chosen compute the original (X >> Shift) & Mask for
      every source value, and for an arithmetic shift too: the guard
      Shift + MaskSize <= width keeps the copied sign bits out of the
      field. */
  lemma BitExtractComputesShiftAndMask(f: Features, shiftOp: ShiftKind, width: nat,
                                       mask: Option<Word>, shift: Option<nat>, src: Word)
    requires width in {8, 16, 32, 64}
    requires MatchBextrFromAndImm(f, shiftOp, true, width, mask, shift) != NoMatch
    ensures var r := MatchBextrFromAndImm(f, shiftOp, true, width, mask, shift);
            var original := ShiftedField(shiftOp, width, mask.value, shift.value, src);
            (r.Bextr? ==> BextrOp(src, r.control, width) == original) &&
            (r.BzhiThenShr? ==> Shr(BzhiOp(src, r.index, width), r.shift) == original)
  {
    var r := MatchBextrFromAndImm(f, shiftOp, true, width, mask, shift);
    var m, s := mask.value, shift.value;
    MaskIsLowOnes(m);
    if r.Bextr? {
      BextrIsField(shiftOp, src, r.control, width, Popcount(m), s);
    } else {
      BzhiShrIsField(shiftOp, src, width, Popcount(m), s);
    }
  }
}
