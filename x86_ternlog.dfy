/** The VPTERNLOG truth-table immediates built when two vector logic
    operations are merged into one VPTERNLOGD/Q (Intel SDM Vol. 2,
    VPTERNLOGD/VPTERNLOGQ): result bit = imm[4*a + 2*b + c] for the bits
    a, b, c of the three operands A, B and C. */
module X86Ternlog {

  /** The logic operations tryVPTERNLOG merges; ANDNP(x, y) is ~x & y. */
  datatype LogicOp = And | Or | Xor | AndNP

  function Apply(op: LogicOp, x: bool, y: bool): bool
  {
    match op
    case And => x && y
    case Or => x || y
    case Xor => x != y
    case AndNP => !x && y
  }

  /** The single-bit masks of a byte, bit 0 first. */
  const BitMasks: seq<bv8> := [0x01, 0x02, 0x04, 0x08, 0x10, 0x20, 0x40, 0x80]

  /** The function of (a, b, c) an immediate selects: its bit 4a + 2b + c. */
  function TernlogBit(imm: bv8, a: bool, b: bool, c: bool): bool
  {
    var index := (if a then 4 else 0) + (if b then 2 else 0) + (if c then 1 else 0);
    imm & BitMasks[index] != 0
  }

  const MagicA: bv8 := 0xf0
  const MagicB: bv8 := 0xcc
  const MagicC: bv8 := 0xaa

  /** The inner operation on B and C, evaluated on the magic constants. */
  function InnerImm(inner: LogicOp): (imm: bv8)
    ensures forall a: bool, b: bool, c: bool ::
              TernlogBit(imm, a, b, c) == Apply(inner, b, c)
  {
    match inner
    case And => MagicB & MagicC
    case Or => MagicB | MagicC
    case Xor => MagicB ^ MagicC
    case AndNP => !MagicB & MagicC
  }

  /** tryVPTERNLOG: the immediate for root(A, inner(B, C)) when `aIsLhs`
      (A is operand 0 of the root, the foldable operation operand 1), or
      root(inner(B, C), A) otherwise.  Only ANDNP is not commutative. */
  function TernlogImm(root: LogicOp, aIsLhs: bool, inner: LogicOp): (imm: bv8)
    ensures forall a: bool, b: bool, c: bool ::
              TernlogBit(imm, a, b, c) ==
                if aIsLhs then Apply(root, a, Apply(inner, b, c))
                else Apply(root, Apply(inner, b, c), a)
  {
    var imm := InnerImm(inner);
    match root
    case AndNP => if aIsLhs then imm & !MagicA else !imm & MagicA
    case And => imm & MagicA
    case Or => imm | MagicA
    case Xor => imm ^ MagicA
  }

  /** The immediate after A and C change places, as matchVPTERNLOG does when
      it folds a load in operand A: keep the bits in 0xa5, exchange bits 1
      and 4, and bits 3 and 6. */
  function SwapAC(prior: bv8): (imm: bv8)
    ensures imm & 0xa5 == prior & 0xa5
    ensures forall a: bool, b: bool, c: bool ::
              TernlogBit(imm, c, b, a) == TernlogBit(prior, a, b, c)
  {
    var imm := prior & 0xa5;
    var imm := if prior & 0x02 != 0 then imm | 0x10 else imm;
    var imm := if prior & 0x10 != 0 then imm | 0x02 else imm;
    var imm := if prior & 0x08 != 0 then imm | 0x40 else imm;
    if prior & 0x40 != 0 then imm | 0x08 else imm
  }

  /** The immediate after B and C change places (a load folded in operand
      B): keep the bits in 0x99, exchange bits 1 and 2, and bits 5 and 6. */
  function SwapBC(prior: bv8): (imm: bv8)
    ensures imm & 0x99 == prior & 0x99
    ensures forall a: bool, b: bool, c: bool ::
              TernlogBit(imm, a, c, b) == TernlogBit(prior, a, b, c)
  {
    var imm := prior & 0x99;
    var imm := if prior & 0x02 != 0 then imm | 0x04 else imm;
    var imm := if prior & 0x04 != 0 then imm | 0x02 else imm;
    var imm := if prior & 0x20 != 0 then imm | 0x40 else imm;
    if prior & 0x40 != 0 then imm | 0x20 else imm
  }

  /** Swapping twice gives the immediate back. */
  lemma SwapsAreInvolutions(imm: bv8)
    ensures SwapAC(SwapAC(imm)) == imm
    ensures SwapBC(SwapBC(imm)) == imm
  {
  }

  /** Which operand matchVPTERNLOG managed to fold as a memory operand. */
  datatype FoldedOperand = FoldedC | FoldedA | FoldedB | NotFolded

  /** The operands (in A, B, C order) and immediate matchVPTERNLOG emits;
      the load always ends up in the C slot. */
  function LoadFoldOrder<T>(folded: FoldedOperand, a: T, b: T, c: T, imm: bv8): (r: (T, T, T, bv8))
    ensures folded == FoldedA ==> r.2 == a
    ensures folded == FoldedB ==> r.2 == b
    ensures folded == FoldedC ==> r.2 == c
  {
    match folded
    case FoldedA => (c, b, a, SwapAC(imm))
    case FoldedB => (a, c, b, SwapBC(imm))
    case _ => (a, b, c, imm)
  }

  /** Reordering the operands for a folded load never changes the function
      computed, whatever the bit values of the operands. */
  lemma LoadFoldPreservesFunction(folded: FoldedOperand, a: bool, b: bool, c: bool, imm: bv8)
    ensures var r := LoadFoldOrder(folded, a, b, c, imm);
            TernlogBit(r.3, r.0, r.1, r.2) == TernlogBit(imm, a, b, c)
  {
  }

  /** The immediate tryMatchBitSelect uses for OR(AND(A, B), ANDNP(A, C)). */
  const BitSelectImm: bv8 := 0xCA

  /** 0xCA computes OR(AND(A, B), ANDNP(A, C)), that is, B where A is set
      and C elsewhere. */
  lemma BitSelectImmIsSelect()
    ensures forall a: bool, b: bool, c: bool ::
              TernlogBit(BitSelectImm, a, b, c) ==
                Apply(Or, Apply(And, a, b), Apply(AndNP, a, c))
    ensures forall a: bool, b: bool, c: bool ::
              TernlogBit(BitSelectImm, a, b, c) == if a then b else c
  {
  }
}
