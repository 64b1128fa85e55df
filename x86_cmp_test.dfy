/** The X86ISD::CMP case of instruction selection: a comparison of
    (and X, Imm) with zero becomes a TEST, narrowed to a shorter immediate
    where the flags the users read come out the same, or a shift followed
    by TEST when only the zero flag is read. */
module X86CmpTest {
  import opened Wrappers
  import opened X86Words

  /** Operand 0 of the CMP, as far as the selection looks at it. */
  datatype CmpOperand =
    | AndNode(bits: nat, oneUse: bool, mask: Option<Word>)
    | Truncate(oneUse: bool, inner: CmpOperand)
    | OtherOperand

  predicate ValidOperand(n: CmpOperand, cmpBits: nat)
  {
    match n
    case AndNode(bits, _, mask) =>
      bits in {8, 16, 32, 64} && bits == cmpBits &&
      (mask.Some? ==> FitsUnsigned(mask.value, bits))
    case Truncate(_, inner) =>
      (match inner
       case AndNode(bits, _, mask) =>
         bits in {8, 16, 32, 64} && bits > cmpBits &&
         (mask.Some? ==> FitsUnsigned(mask.value, bits))
       case Truncate(_, _) => false
       case OtherOperand => true)
    case OtherOperand => true
  }

  datatype TestChoice =
    | KeepCmp
      /** TEST32rr/TEST64rr of the BEXTR that replaced the AND. */
    | TestBextr(bits: nat)
      /** SHR64ri by `amount`, then TEST64rr. */
    | ShrTest(amount: nat)
      /** SHL64ri by `amount`, then TEST64rr. */
    | ShlTest(amount: nat)
      /** TEST8/16/32 with the immediate, on the low `bits` of X. */
    | NarrowTest(bits: nat, imm: Word)

  /** The operand the narrowing looks at: a one-use truncate is looked
      through. */
  function PeekThroughTruncate(n: CmpOperand): CmpOperand
  {
    if n.Truncate? && n.oneUse then n.inner else n
  }

  /** The TEST width chosen for a mask, with the sign-flag side conditions
      of each width; None when no width is eligible. */
  function NarrowWidth(cmpBits: nat, andBits: nat, mask: Word, noSF: bool, optMinSize: bool): (r: Option<nat>)
    requires cmpBits in {8, 16, 32, 64} && andBits in {8, 16, 32, 64}
    ensures r.Some? ==> r.value in {8, 16, 32} && (andBits >= 16 ==> r.value <= andBits)
    ensures r.Some? ==> FitsUnsigned(mask, r.value)
    ensures r == Some(16) ==> optMinSize
    ensures r.Some? && mask[r.value - 1] && cmpBits != r.value ==> noSF
    ensures r.Some? && cmpBits < r.value && FitsUnsigned(mask, cmpBits) && mask[cmpBits - 1] ==> noSF
  {
    if FitsUnsigned(mask, 8) && (!mask[7] || cmpBits == 8 || noSF) then Some(8)
    else if optMinSize && FitsUnsigned(mask, 16) && (!mask[15] || cmpBits == 16 || noSF) then Some(16)
    else if FitsUnsigned(mask, 32) && andBits != 16 &&
            ((!mask[31] && (cmpBits != 16 || !mask[15])) || cmpBits == 32 || noSF) then Some(32)
    else None
  }

  /** The selection.  `bextrMatches` says whether matchBEXTRFromAndImm
      selects an instruction for operand 0; `onlyZF` and `noSF` are the
      answers of onlyUsesZeroFlag and hasNoSignFlagUses about the CMP's
      users; `foldedVolatileLoad` is the width of the load the TEST would
      fold when that load is not simple. */
  function SelectCmpWithZero(cmpBits: nat, n0: CmpOperand, bextrMatches: bool,
                             onlyZF: bool, noSF: bool, optMinSize: bool,
                             foldedVolatileLoad: Option<nat>): (r: TestChoice)
    requires cmpBits in {8, 16, 32, 64} && ValidOperand(n0, cmpBits)
    ensures r.TestBextr? ==> n0.AndNode? && n0.oneUse && bextrMatches &&
                             r.bits == (if cmpBits == 64 then 64 else 32)
    ensures r.ShrTest? || r.ShlTest? || r.NarrowTest? ==>
              var n := PeekThroughTruncate(n0);
              n.AndNode? && n.oneUse && n.bits != 8 && n.mask.Some?
    ensures r.ShrTest? || r.ShlTest? ==> cmpBits == 64 && onlyZF
    ensures r.NarrowTest? ==>
              var n := PeekThroughTruncate(n0);
              r.imm == n.mask.value && r.bits in {8, 16, 32} && r.bits <= n.bits &&
              FitsUnsigned(r.imm, r.bits) &&
              (r.imm[r.bits - 1] && cmpBits != r.bits ==> noSF) &&
              (cmpBits < r.bits && FitsUnsigned(r.imm, cmpBits) && r.imm[cmpBits - 1] ==> noSF) &&
              (foldedVolatileLoad.Some? ==> foldedVolatileLoad.value == r.bits)
  {
    if n0.AndNode? && n0.oneUse && bextrMatches then
      TestBextr(if cmpBits == 64 then 64 else 32)
    else
      var n := PeekThroughTruncate(n0);
      if !(n.AndNode? && n.oneUse && n.bits != 8) then KeepCmp
      else if n.mask.None? then KeepCmp
      else
        var mask := n.mask.value;
        var wide := cmpBits == 64 && !FitsSigned(mask, 32) && onlyZF;
        if wide && IsMask64(Not(mask, 64)) then ShrTest(Ctz(mask))
        else if wide && IsMask64(mask) then ShlTest(Clz(mask, 64))
        else
          match NarrowWidth(cmpBits, n.bits, mask, noSF, optMinSize)
          case None => KeepCmp
          case Some(bits) =>
            if foldedVolatileLoad.Some? && foldedVolatileLoad.value != bits then KeepCmp
            else NarrowTest(bits, mask)
  }

  /** The zero and sign flags of TEST (or of CMP with zero) on the low w
      bits of v. */
  datatype Flags = Flags(zf: bool, sf: bool)

  function TestFlags(v: Word, w: nat): (f: Flags)
    requires 1 <= w <= 64
    ensures f.zf <==> forall i :: 0 <= i < w ==> !v[i]
    ensures f.sf == v[w - 1]
  {
    Flags(IsZero(v, w), v[w - 1])
  }

  /** With the low k bits of the mask clear and the rest set, shifting
      them out leaves zero exactly when the AND was zero. */
  lemma ShrTestPreservesZero(mask: Word, x: Word)
    requires IsMask64(Not(mask, 64)) && !FitsSigned(mask, 32)
    ensures TestFlags(Shr(x, Ctz(mask)), 64).zf == TestFlags(And(x, mask), 64).zf
  {
    var k := Popcount(Not(mask, 64));
    MaskIsLowOnes(Not(mask, 64));
    assert mask == Not(LowOnes(k), 64);
    assert k < 64 by {
      var j :| 31 <= j < 64 && mask[j] != mask[63];
      assert mask[j] || mask[63];
    }
    CtzOfHighOnes(k);
    var v := And(x, mask);
    var s := Shr(x, k);
    assert forall i :: 0 <= i < 64 ==> (v[i] <==> k <= i && x[i]);
    if exists i :: 0 <= i < 64 && v[i] {
      var i :| 0 <= i < 64 && v[i];
      assert s[i - k];
    }
    if exists i :: 0 <= i < 64 && s[i] {
      var i :| 0 <= i < 64 && s[i];
      assert v[i + k];
    }
  }

  /** With the low k bits of the mask set and the rest clear, shifting the
      others out leaves zero exactly when the AND was zero. */
  lemma ShlTestPreservesZero(mask: Word, x: Word)
    requires IsMask64(mask)
    ensures TestFlags(Shl(x, Clz(mask, 64), 64), 64).zf == TestFlags(And(x, mask), 64).zf
  {
    var k := Popcount(mask);
    MaskIsLowOnes(mask);
    ClzOfLowOnes(k);
    var v := And(x, mask);
    var s := Shl(x, 64 - k, 64);
    assert forall i :: 0 <= i < 64 ==> (v[i] <==> i < k && x[i]);
    if exists i :: 0 <= i < 64 && v[i] {
      var i :| 0 <= i < 64 && v[i];
      assert s[i + 64 - k];
    }
    if exists i :: 0 <= i < 64 && s[i] {
      var i :| 0 <= i < 64 && s[i];
      assert v[i - (64 - k)];
    }
  }

  /** TEST at a narrower (or wider) width with the same immediate: the zero
      flag is unchanged when the mask fits both widths, and the sign flag
      when the mask has no set sign bit at the width that differs. */
  lemma NarrowTestPreservesFlags(cmpBits: nat, bits: nat, mask: Word, x: Word, noSF: bool)
    requires cmpBits in {8, 16, 32, 64} && bits in {8, 16, 32}
    requires FitsUnsigned(mask, bits) && FitsUnsigned(mask, cmpBits)
    requires mask[bits - 1] && cmpBits != bits ==> noSF
    requires mask[cmpBits - 1] && cmpBits < bits ==> noSF
    ensures TestFlags(And(x, mask), bits).zf == TestFlags(And(x, mask), cmpBits).zf
    ensures !noSF ==> TestFlags(And(x, mask), bits).sf == TestFlags(And(x, mask), cmpBits).sf
  {
    var v := And(x, mask);
    assert forall i :: bits <= i < 64 ==> !v[i];
    assert forall i :: cmpBits <= i < 64 ==> !v[i];
  }

  /** The replacement sets the zero flag as the compare did, and the sign
      flag too unless no user reads it.  The original flags are those of
      the AND at the compare's width.  Where a truncate was looked through,
      the mask is taken to have no set bit above the compared width (the
      bits the compare does not demand have been cleared from it). */
  lemma TestPreservesFlags(cmpBits: nat, n0: CmpOperand, bextrMatches: bool,
                           onlyZF: bool, noSF: bool, optMinSize: bool,
                           foldedVolatileLoad: Option<nat>, x: Word)
    requires cmpBits in {8, 16, 32, 64} && ValidOperand(n0, cmpBits)
    requires var n := PeekThroughTruncate(n0);
             n.AndNode? && n.mask.Some? ==> FitsUnsigned(n.mask.value, cmpBits)
    ensures var r := SelectCmpWithZero(cmpBits, n0, bextrMatches, onlyZF, noSF, optMinSize, foldedVolatileLoad);
            var n := PeekThroughTruncate(n0);
            var before := if n.AndNode? && n.mask.Some? then TestFlags(And(x, n.mask.value), cmpBits)
                          else Flags(false, false);
            (r.ShrTest? ==> TestFlags(Shr(x, r.amount), 64).zf == before.zf) &&
            (r.ShlTest? ==> TestFlags(Shl(x, r.amount, 64), 64).zf == before.zf) &&
            (r.NarrowTest? ==> TestFlags(And(x, r.imm), r.bits).zf == before.zf &&
                               (!noSF ==> TestFlags(And(x, r.imm), r.bits).sf == before.sf))
  {
    var r := SelectCmpWithZero(cmpBits, n0, bextrMatches, onlyZF, noSF, optMinSize, foldedVolatileLoad);
    var n := PeekThroughTruncate(n0);
    if r.ShrTest? {
      ShrTestPreservesZero(n.mask.value, x);
    } else if r.ShlTest? {
      ShlTestPreservesZero(n.mask.value, x);
    } else if r.NarrowTest? {
      NarrowTestPreservesFlags(cmpBits, r.bits, n.mask.value, x, noSF);
    }
  }

  /** Without that assumption the narrowed TEST can read a bit the compare
      does not: the i8 compare with zero of the truncate of
      (and i32 x, 0x1FF) under minsize becomes a 16-bit TEST of 0x1FF,
      whose zero flag differs from the compare's when x is 0x100. */
  lemma TruncatedWideMaskChangesZeroFlag()
    ensures var mask := LowOnes(9);
            var x: Word := seq(64, i => i == 8);
            SelectCmpWithZero(8, Truncate(true, AndNode(32, true, Some(mask))), false, false, false, true, None)
              == NarrowTest(16, mask) &&
            TestFlags(And(x, mask), 16).zf != TestFlags(And(x, mask), 8).zf
  {
    var mask := LowOnes(9);
    var x: Word := seq(64, i => i == 8);
    assert mask[8] && !mask[15];
    assert And(x, mask)[8];
  }

  /** An AND with 0xFF00000000000000 compared with zero for ZF only
      becomes a right shift by 56. */
  lemma HighByteMaskBecomesShift()
    ensures SelectCmpWithZero(64, AndNode(64, true, Some(Not(LowOnes(56), 64))),
                              false, true, true, false, None) == ShrTest(56)
  {
    var mask := Not(LowOnes(56), 64);
    assert !mask[31] && mask[63];
    assert !FitsSigned(mask, 32);
    assert Not(mask, 64) == LowOnes(56);
    LowOnesIsMask(56);
    CtzOfHighOnes(56);
  }
}
