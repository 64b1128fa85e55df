/** Two rewrites that trade a logic operation's constant for one with a
    shorter x86 immediate encoding (sign-extended imm8 or imm32, or a
    MOVZX-able 0xFF / 0xFFFF):
      - shrinkAndImmediate sets the mask's leading zero bits when the other
        operand is known to be zero there, making the mask a small negative
        number (or all ones, dropping the AND);
      - tryShrinkShlLogicImm turns (x << c1) op c2 into (x op (c2 >> c1)) << c1
        for op in AND, OR, XOR. */
module X86ImmShrink {
  import opened Wrappers
  import opened X86Words

  // ---------------------------------------------------------------------
  // shrinkAndImmediate

  datatype AndShrink =
    | NoShrink
      /** The mask is all ones over the value: the AND is replaced by its
          variable operand. */
    | DropAnd
    | NewMask(mask: Word)

  /** The width the mask is considered at: an i64 mask whose upper half is
      clear is looked at as a 32-bit value. */
  function ShrinkWidth(vtBits: nat, mask: Word): (w: nat)
    requires vtBits in {32, 64}
    ensures w in {32, 64} && w <= vtBits
  {
    if vtBits == 64 && Clz(mask, 64) >= 32 then 32 else vtBits
  }

  /** The leading zeros of the mask that the negative mask sets. */
  function HighZerosOf(vtBits: nat, mask: Word): (h: Word)
    requires vtBits in {32, 64}
    ensures FitsUnsigned(h, ShrinkWidth(vtBits, mask))
  {
    var w := ShrinkWidth(vtBits, mask);
    var lz := if w < vtBits then Clz(mask, 64) - 32 else Clz(mask, vtBits);
    HighOnes(w, lz)
  }

  /** shrinkAndImmediate.  `vtBits` is the width of the AND, `mask` its
      constant operand (None when not constant) and `knownZero` the
      answer of MaskedValueIsZero about the variable operand. */
  function ShrinkAndImmediate(vtBits: nat, mask: Option<Word>, knownZero: Word -> bool): (r: AndShrink)
    requires vtBits in {8, 16, 32, 64}
    requires mask.Some? ==> FitsUnsigned(mask.value, vtBits)
    ensures r != NoShrink ==> vtBits in {32, 64} && mask.Some? && knownZero(HighZerosOf(vtBits, mask.value))
    ensures r.DropAnd? ==> HighZerosOf(vtBits, mask.value) == Not(mask.value, vtBits)
    ensures r.NewMask? ==>
              var w := ShrinkWidth(vtBits, mask.value);
              r.mask == Or(mask.value, HighZerosOf(vtBits, mask.value)) &&
              r.mask != mask.value &&
              MinSignedBits(r.mask, w) <= 32 &&
              (MinSignedBits(mask.value, w) <= 32 ==> MinSignedBits(r.mask, w) <= 8)
  {
    if vtBits != 32 && vtBits != 64 then NoShrink
    else if mask.None? then NoShrink
    else
      var m := mask.value;
      var maskLZ := Clz(m, vtBits);
      if maskLZ == 0 || (vtBits == 64 && maskLZ == 32) then NoShrink
      else
        var w := ShrinkWidth(vtBits, m);
        var highZeros := HighZerosOf(vtBits, m);
        var neg := Or(m, highZeros);
        var minWidth := MinSignedBits(neg, w);
        if minWidth > 32 || (minWidth > 8 && MinSignedBits(m, w) <= 32) then NoShrink
        else if !knownZero(highZeros) then NoShrink
        else if forall i :: 0 <= i < vtBits ==> neg[i] then
          NotMaskIsHighZeros(vtBits, m);
          DropAnd
        else
          NegMaskDiffers(vtBits, m);
          NewMask(neg)
  }

  /** When the mask with its leading zeros set is all ones, the leading
      zeros are exactly the bits the AND clears. */
  lemma NotMaskIsHighZeros(vtBits: nat, m: Word)
    requires vtBits in {32, 64} && FitsUnsigned(m, vtBits)
    requires forall i :: 0 <= i < vtBits ==> Or(m, HighZerosOf(vtBits, m))[i]
    ensures HighZerosOf(vtBits, m) == Not(m, vtBits)
  {
    var w := ShrinkWidth(vtBits, m);
    var h := HighZerosOf(vtBits, m);
    // The top bit is set, so the mask was looked at over its full width.
    assert Or(m, h)[vtBits - 1];
    ClzSpec(m, vtBits);
    forall i | 0 <= i < 64 ensures h[i] == Not(m, vtBits)[i] {
      assert i < vtBits ==> Or(m, h)[i];
    }
  }

  lemma NegMaskDiffers(vtBits: nat, m: Word)
    requires vtBits in {32, 64} && FitsUnsigned(m, vtBits)
    requires Clz(m, vtBits) != 0 && !(vtBits == 64 && Clz(m, vtBits) == 32)
    ensures Or(m, HighZerosOf(vtBits, m)) != m
  {
    var w := ShrinkWidth(vtBits, m);
    ClzSpec(m, vtBits);
    if w < vtBits {
      ClzSpec(m, 32);
      assert !m[31];
      assert Or(m, HighZerosOf(vtBits, m))[31];
    } else {
      assert !m[w - 1];
      assert Or(m, HighZerosOf(vtBits, m))[w - 1];
    }
  }

  /** The rewritten AND computes the same value for every operand that has
      the zeros the analysis reported. */
  lemma ShrinkAndPreservesValue(vtBits: nat, mask: Option<Word>, knownZero: Word -> bool, x: Word)
    requires vtBits in {8, 16, 32, 64}
    requires mask.Some? ==> FitsUnsigned(mask.value, vtBits)
    requires FitsUnsigned(x, vtBits)
    requires forall h :: knownZero(h) ==> And(x, h) == Zero()
    ensures var r := ShrinkAndImmediate(vtBits, mask, knownZero);
            (r.NewMask? ==> And(x, r.mask) == And(x, mask.value)) &&
            (r.DropAnd? ==> x == And(x, mask.value))
  {
    var r := ShrinkAndImmediate(vtBits, mask, knownZero);
    if r != NoShrink {
      var m := mask.value;
      var h := HighZerosOf(vtBits, m);
      assert And(x, h) == Zero();
      assert forall i :: 0 <= i < 64 && h[i] ==> !x[i] by {
        forall i | 0 <= i < 64 && h[i] ensures !x[i] {
          assert And(x, h)[i] == Zero()[i];
        }
      }
      if r.NewMask? {
        assert And(x, r.mask) == And(x, m);
      } else {
        assert x == And(x, m);
      }
    }
  }

  /** The new mask is negative at its width: the bits from 31 up are all
      set, so it is a sign-extended imm32 (from 7 up, an imm8, when the old
      mask already fitted in an imm32). */
  lemma NewMaskIsSignExtended(vtBits: nat, mask: Option<Word>, knownZero: Word -> bool)
    requires vtBits in {8, 16, 32, 64}
    requires mask.Some? ==> FitsUnsigned(mask.value, vtBits)
    requires ShrinkAndImmediate(vtBits, mask, knownZero).NewMask?
    ensures var r := ShrinkAndImmediate(vtBits, mask, knownZero);
            var w := ShrinkWidth(vtBits, mask.value);
            (forall i :: 31 <= i < w ==> r.mask[i]) &&
            (MinSignedBits(mask.value, w) <= 32 ==> forall i :: 7 <= i < w ==> r.mask[i])
  {
    var r := ShrinkAndImmediate(vtBits, mask, knownZero);
    var w := ShrinkWidth(vtBits, mask.value);
    var m := mask.value;
    ClzSpec(m, vtBits);
    if w < vtBits {
      ClzSpec(m, 64);
    }
    assert r.mask[w - 1];
    MinSignedBitsSpec(r.mask, w, 32);
    MinSignedBitsSpec(r.mask, w, 8);
  }

  // ---------------------------------------------------------------------
  // tryShrinkShlLogicImm

  datatype LogicOpcode = AndOp | OrOp | XorOp

  function ApplyLogic(op: LogicOpcode, a: Word, b: Word): Word
  {
    match op
    case AndOp => And(a, b)
    case OrOp => Or(a, b)
    case XorOp => Xor(a, b)
  }

  /** Operand 0 of the logic operation. */
  datatype ShlOperand =
    | ShlNode(oneUse: bool, amount: Option<nat>)
    | AnyExtendOf(oneUse: bool, fromBits: nat, inner: ShlOperand)
    | NotAShl

  predicate ValidShlOperand(n: ShlOperand, nvtBits: nat)
  {
    match n
    case ShlNode(_, amount) => amount.Some? ==> amount.value < nvtBits
    case AnyExtendOf(_, fromBits, inner) =>
      fromBits < nvtBits &&
      (inner.ShlNode? ==> (inner.amount.Some? ==> inner.amount.value < fromBits))
    case NotAShl => true
  }

  datatype ShlShrink =
    | NoReorder
      /** (x op newConst) << amount, x any-extended first when the shift
          sat behind an any_extend. */
    | Reorder(newConst: Word, throughAnyExtend: bool, amount: nat)

  /** The CanShrinkImmediate lambda: the constant shifted right (logically
      or arithmetically), when that is a cheaper immediate. */
  function CanShrinkImmediate(op: LogicOpcode, nvtBits: nat, val: Word, s: nat): (r: Option<Word>)
    ensures r.Some? ==> r.value == Shr(val, s) || r.value == AShr(val, s, 64)
    ensures r.Some? ==> forall i :: 0 <= i < 64 && i + s < 64 ==> r.value[i] == val[i + s]
  {
    var logical := Shr(val, s);
    var arith := AShr(val, s, 64);
    if op == AndOp &&
       ((nvtBits == 64 && !FitsUnsigned(val, 32) && FitsUnsigned(logical, 32)) ||
        logical == LowOnes(8) || logical == LowOnes(16)) then Some(logical)
    else if (!FitsSigned(val, 8) && FitsSigned(arith, 8)) ||
            (!FitsSigned(val, 32) && FitsSigned(arith, 32)) then Some(arith)
    else if op != AndOp && nvtBits == 64 && !FitsUnsigned(val, 32) && FitsUnsigned(logical, 32) then
      Some(logical)
    else None
  }

  /** PowerOf2Ceil for widths 8 .. 64. */
  function PowerOf2Ceil(n: nat): (p: nat)
    requires 8 <= n <= 64
    ensures p in {8, 16, 32, 64} && n <= p
  {
    if n <= 8 then 8 else if n <= 16 then 16 else if n <= 32 then 32 else 64
  }

  /** The bits of the variable operand that must be zero for the original
      AND to act as the smallest zero extension its constant allows. */
  function MovzxNeededMask(nvtBits: nat, val: Word): (m: Word)
    requires nvtBits in {32, 64}
    ensures FitsUnsigned(m, nvtBits)
  {
    var activeBits := nvtBits - Clz(val, nvtBits);
    var zextWidth := PowerOf2Ceil(if activeBits < 8 then 8 else activeBits);
    And(LowOnes(zextWidth), Not(val, nvtBits))
  }

  /** tryShrinkShlLogicImm.  `cst` is the constant operand sign-extended to
      64 bits; `knownZero` is MaskedValueIsZero about operand 0. */
  function TryShrinkShlLogicImm(op: LogicOpcode, nvtBits: nat, cst: Option<Word>, shift: ShlOperand,
                                knownZero: Word -> bool): (r: ShlShrink)
    requires nvtBits in {8, 16, 32, 64} && ValidShlOperand(shift, nvtBits)
    ensures r.Reorder? ==>
              nvtBits in {32, 64} && cst.Some? &&
              (r.throughAnyExtend ==> shift.AnyExtendOf?) &&
              var shl := if r.throughAnyExtend then shift.inner else shift;
              shl.ShlNode? && shl.oneUse && shl.amount == Some(r.amount) &&
              (r.throughAnyExtend ==> shift.oneUse && shift.fromBits == 32 &&
                                      FitsUnsigned(cst.value, 32)) &&
              (op != AndOp ==> IsZero(cst.value, r.amount)) &&
              (op == AndOp ==> !knownZero(MovzxNeededMask(nvtBits, cst.value))) &&
              FitsUnsigned(r.newConst, nvtBits) &&
              forall i :: 0 <= i < nvtBits && i + r.amount < 64 ==>
                r.newConst[i] == cst.value[i + r.amount]
  {
    if cst.None? then NoReorder
    else
      var val := cst.value;
      var anyExtend := shift.AnyExtendOf? && shift.oneUse && shift.fromBits == 32 &&
                       FitsUnsigned(val, 32);
      var shl := if anyExtend then shift.inner else shift;
      if !(shl.ShlNode? && shl.oneUse) then NoReorder
      else if nvtBits != 32 && nvtBits != 64 then NoReorder
      else if shl.amount.None? then NoReorder
      else
        var s := shl.amount.value;
        if op != AndOp && !IsZero(val, s) then NoReorder
        else
          match CanShrinkImmediate(op, nvtBits, val, s)
          case None => NoReorder
          case Some(shifted) =>
            if op == AndOp && knownZero(MovzxNeededMask(nvtBits, val)) then NoReorder
            else Reorder(Trunc(shifted, nvtBits), anyExtend, s)
  }

  /** The reordered form computes the original value:
      ((x << c1) op c2) == ((x op c2') << c1) at the operation's width.
      Behind an any_extend, x is a 32-bit value whose extension `ext`
      agrees with it in the low 32 bits; the AND then agrees in every bit,
      OR and XOR in the defined low 32 bits. */
  lemma ShlLogicReorderPreservesValue(op: LogicOpcode, nvtBits: nat, cst: Option<Word>,
                                      shift: ShlOperand, knownZero: Word -> bool,
                                      x: Word, ext: Word)
    requires nvtBits in {8, 16, 32, 64} && ValidShlOperand(shift, nvtBits)
    requires cst.Some? ==> FitsSigned(cst.value, nvtBits)
    requires Trunc(ext, 32) == Trunc(x, 32)
    ensures var r := TryShrinkShlLogicImm(op, nvtBits, cst, shift, knownZero);
            r.Reorder? ==>
              var w := nvtBits;
              var s := r.amount;
              if !r.throughAnyExtend then
                Trunc(ApplyLogic(op, Shl(x, s, w), cst.value), w) ==
                Shl(ApplyLogic(op, x, r.newConst), s, w)
              else
                var keep := if op == AndOp then w else 32;
                Trunc(ApplyLogic(op, Shl(x, s, 32), cst.value), keep) ==
                Trunc(Shl(ApplyLogic(op, ext, r.newConst), s, w), keep)
  {
    var r := TryShrinkShlLogicImm(op, nvtBits, cst, shift, knownZero);
    if r.Reorder? {
      if !r.throughAnyExtend {
        ShlOpReorder(op, nvtBits, r.amount, cst.value, r.newConst, x);
      } else {
        ShlOpReorderThroughExtend(op, nvtBits, r.amount, cst.value, r.newConst, x, ext);
      }
    }
  }

  /** ((x << s) op val) == ((x op c) << s) at width w, when c holds the
      bits of val from s up and the low s bits of val are clear unless the
      operation is an AND. */
  lemma ShlOpReorder(op: LogicOpcode, w: nat, s: nat, val: Word, c: Word, x: Word)
    requires w <= 64
    requires op != AndOp ==> IsZero(val, s)
    requires forall i :: 0 <= i < w && i + s < 64 ==> c[i] == val[i + s]
    ensures Trunc(ApplyLogic(op, Shl(x, s, w), val), w) == Shl(ApplyLogic(op, x, c), s, w)
  {
    var lhs := Trunc(ApplyLogic(op, Shl(x, s, w), val), w);
    var rhs := Shl(ApplyLogic(op, x, c), s, w);
    forall i | 0 <= i < 64 ensures lhs[i] == rhs[i] {
      if s <= i < w {
        assert c[i - s] == val[i];
      }
    }
  }

  /** The same reordering behind an any_extend of a 32-bit shift: the AND
      agrees in all w bits (val has no bit above 31), OR and XOR in the low
      32 bits, the only ones the extension defines. */
  lemma ShlOpReorderThroughExtend(op: LogicOpcode, w: nat, s: nat, val: Word, c: Word, x: Word, ext: Word)
    requires 32 <= w <= 64 && FitsUnsigned(val, 32)
    requires op != AndOp ==> IsZero(val, s)
    requires forall i :: 0 <= i < w && i + s < 64 ==> c[i] == val[i + s]
    requires Trunc(ext, 32) == Trunc(x, 32)
    ensures var keep := if op == AndOp then w else 32;
            Trunc(ApplyLogic(op, Shl(x, s, 32), val), keep) == Trunc(Shl(ApplyLogic(op, ext, c), s, w), keep)
  {
    var keep := if op == AndOp then w else 32;
    var lhs := Trunc(ApplyLogic(op, Shl(x, s, 32), val), keep);
    var rhs := Trunc(Shl(ApplyLogic(op, ext, c), s, w), keep);
    forall i | 0 <= i < 64 ensures lhs[i] == rhs[i] {
      if s <= i < keep {
        assert c[i - s] == val[i];
        if i < 32 {
          assert ext[i - s] == Trunc(ext, 32)[i - s];
        }
      }
    }
  }
}
