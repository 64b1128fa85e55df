/** foldLoadStoreIntoMemOperand: a store of (load op x) back to the loaded
    address becomes one read-modify-write instruction with a memory
    destination: NEG, INC or DEC, or the operation with a register, a
    sign-extended imm8 or a full immediate (imm32 for 64-bit operands). */
module X86MemFold {
  import opened Wrappers

  datatype RmwOpcode = AddOp | AdcOp | SubOp | SbbOp | AndOp | OrOp | XorOp | OtherOp

  /** The stored value: its opcode and which of its first two operands are
      constants (sign-extended to 64 bits). */
  datatype StoredValue = StoredValue(opc: RmwOpcode, op0: Option<int>, op1: Option<int>)

  /** What instruction selection learns from code this model does not
      contain. */
  datatype FoldContext = FoldContext(
    /** isFusableLoadOpStorePattern for load operand 0 and 1. */
    fusable0: bool, fusable1: bool,
    /** selectAddr succeeded on the load's address. */
    addrSelected: bool,
    /** !slowIncDec() || shouldOptForSize(). */
    incDecAllowed: bool,
    /** hasNoCarryFlagUses on the stored value's flags. */
    noCarryUse: bool)

  datatype MemInstr =
    | NegM
    | IncM
    | DecM
    | RegForm(op: RmwOpcode)
    | Imm8Form(op: RmwOpcode, imm: int)
    | ImmForm(op: RmwOpcode, imm: int)

  predicate IsCommutable(opc: RmwOpcode)
  {
    opc in {AddOp, AdcOp, AndOp, OrOp, XorOp}
  }

  predicate IsNegate(v: StoredValue)
  {
    v.opc == SubOp && v.op0 == Some(0)
  }

  /** A load operand is not a constant, and the constants are values of
      the memory width. */
  predicate WellFormed(memBits: nat, v: StoredValue, ctx: FoldContext)
  {
    memBits > 0 &&
    (ctx.fusable0 ==> v.op0.None?) && (ctx.fusable1 ==> v.op1.None?) &&
    (v.op0.Some? ==> IsIntN(memBits, v.op0.value)) &&
    (v.op1.Some? ==> IsIntN(memBits, v.op1.value))
  }

  /** The operand number of the load: operand 0 unless the negate form
      loads operand 1 or a commutable operation finds it there. */
  function LoadOperand(v: StoredValue, ctx: FoldContext): (r: Option<nat>)
    ensures r.Some? ==> r.value in {0, 1} && (r.value == 0 ==> ctx.fusable0) && (r.value == 1 ==> ctx.fusable1)
    ensures r == Some(1) ==> IsNegate(v) || IsCommutable(v.opc)
  {
    var first := if IsNegate(v) then 1 else 0;
    if (if first == 0 then ctx.fusable0 else ctx.fusable1) then Some(first)
    else if !IsCommutable(v.opc) then None
    else if ctx.fusable1 then Some(1)
    else None
  }

  /** The operand that is not the load. */
  function OtherOperand(v: StoredValue, loadOpNo: nat): Option<int>
  {
    if loadOpNo == 0 then v.op1 else v.op0
  }

  /** The negation of the constant when that lets ADD or SUB take a shorter
      immediate (imm8, or imm32 for a 64-bit operand) and the carry flag
      the switch changes is unused. */
  predicate ShouldFlip(memBits: nat, opc: RmwOpcode, c: int, noCarryUse: bool)
  {
    (opc == AddOp || opc == SubOp) &&
    ((memBits != 8 && !IsIntN(8, c) && IsIntN(8, -c)) ||
     (memBits == 64 && !IsIntN(32, c) && IsIntN(32, -c))) &&
    noCarryUse
  }

  function Flipped(opc: RmwOpcode): RmwOpcode
  {
    if opc == AddOp then SubOp else AddOp
  }

  /** The instruction, or None when the pattern is not folded. */
  function FoldLoadStore(memBits: nat, v: StoredValue, ctx: FoldContext): (r: Option<MemInstr>)
    requires WellFormed(memBits, v, ctx)
    ensures r.Some? ==> memBits in {8, 16, 32, 64} && v.opc != OtherOp &&
                        ctx.addrSelected && LoadOperand(v, ctx).Some?
    ensures r == Some(NegM) <==> r.Some? && IsNegate(v)
    ensures r.Some? && (r.value == IncM || r.value == DecM) ==>
              (v.opc == AddOp || v.opc == SubOp) && ctx.incDecAllowed && ctx.noCarryUse &&
              (v.op1 == Some(1) || v.op1 == Some(-1))
    ensures r.Some? && r.value.Imm8Form? ==> memBits != 8 && IsIntN(8, r.value.imm)
    ensures r.Some? && r.value.ImmForm? ==> IsIntN(memBits, r.value.imm) &&
                                            (memBits == 64 ==> IsIntN(32, r.value.imm))
  {
    if memBits !in {8, 16, 32, 64} || v.opc == OtherOp then None
    else match LoadOperand(v, ctx)
      case None => None
      case Some(loadOpNo) =>
        if !ctx.addrSelected then None
        else if IsNegate(v) then Some(NegM)
        else if (v.opc == AddOp || v.opc == SubOp) && ctx.incDecAllowed &&
                (v.op1 == Some(1) || v.op1 == Some(-1)) && ctx.noCarryUse then
          Some(if (v.opc == AddOp) == (v.op1 == Some(1)) then IncM else DecM)
        else
          match OtherOperand(v, loadOpNo)
          case None => Some(RegForm(v.opc))
          case Some(c) =>
            var flip := ShouldFlip(memBits, v.opc, c, ctx.noCarryUse);
            var imm := if flip then -c else c;
            var opc := if flip then Flipped(v.opc) else v.opc;
            if memBits != 8 && IsIntN(8, imm) then Some(Imm8Form(opc, imm))
            else if memBits != 64 || IsIntN(32, imm) then
              assert flip ==> memBits == 64;
              Some(ImmForm(opc, imm))
            else Some(RegForm(v.opc))
  }

  /** The operation changes only when ADD and SUB trade places to take the
      negated constant as a shorter immediate, with the carry flag unused. */
  lemma FlipOnlyForShorterImmediate(memBits: nat, v: StoredValue, ctx: FoldContext)
    requires WellFormed(memBits, v, ctx)
    requires var r := FoldLoadStore(memBits, v, ctx);
             r.Some? && (r.value.RegForm? || r.value.Imm8Form? || r.value.ImmForm?) && r.value.op != v.opc
    ensures var r := FoldLoadStore(memBits, v, ctx).value;
            var other := OtherOperand(v, LoadOperand(v, ctx).value);
            other.Some? && ShouldFlip(memBits, v.opc, other.value, ctx.noCarryUse) &&
            !r.RegForm? && r.op == Flipped(v.opc) && r.imm == -other.value
  {
  }

  // ---------------------------------------------------------------------
  // What the instructions compute

  /** The value stored by the original DAG for the arithmetic opcodes, the
      load being operand `loadOpNo` and the other operand `x`. */
  function StoredArith(opc: RmwOpcode, loadOpNo: nat, m: int, x: int, carry: int): int
  {
    match opc
    case AddOp => m + x
    case AdcOp => m + x + carry
    case SubOp => if loadOpNo == 0 then m - x else x - m
    case SbbOp => m - x - carry
    case _ => 0
  }

  /** The value an arithmetic memory-destination instruction writes, given
      the old memory value m, the register operand x and the carry flag. */
  function ExecArith(i: MemInstr, m: int, x: int, carry: int): int
  {
    match i
    case NegM => -m
    case IncM => m + 1
    case DecM => m - 1
    case RegForm(op) => StoredArith(op, 0, m, x, carry)
    case Imm8Form(op, imm) => StoredArith(op, 0, m, imm, carry)
    case ImmForm(op, imm) => StoredArith(op, 0, m, imm, carry)
  }

  predicate IsArith(opc: RmwOpcode)
  {
    opc in {AddOp, AdcOp, SubOp, SbbOp}
  }

  /** For the arithmetic operations, the folded instruction stores what the
      DAG stored, `x` being the other operand (the constant when there is
      one, held in a register when the register form is kept). */
  lemma FoldPreservesArithmetic(memBits: nat, v: StoredValue, ctx: FoldContext, m: int, x: int, carry: int)
    requires WellFormed(memBits, v, ctx) && IsArith(v.opc)
    requires FoldLoadStore(memBits, v, ctx).Some?
    requires var other := OtherOperand(v, LoadOperand(v, ctx).value);
             other.Some? ==> x == other.value
    ensures ExecArith(FoldLoadStore(memBits, v, ctx).value, m, x, carry) ==
            StoredArith(v.opc, LoadOperand(v, ctx).value, m, x, carry)
  {
    var i := FoldLoadStore(memBits, v, ctx).value;
    var loadOpNo := LoadOperand(v, ctx).value;
    var other := OtherOperand(v, loadOpNo);
    if i == NegM {
      assert loadOpNo == 1 && other == Some(0);
    } else if i == IncM || i == DecM {
      assert loadOpNo == 0 && other == v.op1;
    } else if i.op != v.opc {
      assert loadOpNo == 0 || v.opc == AddOp;
    } else {
      assert loadOpNo == 1 ==> v.opc in {AddOp, AdcOp};
    }
  }

  /** For AND, OR and XOR the instruction keeps the operation, and takes
      the constant as its immediate unless it is a 64-bit constant outside
      the imm32 range. */
  lemma FoldKeepsLogicOperation(memBits: nat, v: StoredValue, ctx: FoldContext)
    requires WellFormed(memBits, v, ctx) && v.opc in {AndOp, OrOp, XorOp}
    requires FoldLoadStore(memBits, v, ctx).Some?
    ensures var i := FoldLoadStore(memBits, v, ctx).value;
            var other := OtherOperand(v, LoadOperand(v, ctx).value);
            (i.RegForm? || i.Imm8Form? || i.ImmForm?) && i.op == v.opc &&
            (other.None? ==> i.RegForm?) &&
            (!i.RegForm? ==> other.Some? && i.imm == other.value) &&
            (i.RegForm? && other.Some? ==> memBits == 64 && !IsIntN(32, other.value))
  {
  }

  /** Byte-sized operations never take the imm8 form, and a 64-bit
      constant that neither it nor its negation fits in 32 bits stays in a
      register. */
  lemma ImmediateFormLimits(memBits: nat, v: StoredValue, ctx: FoldContext)
    requires WellFormed(memBits, v, ctx)
    requires FoldLoadStore(memBits, v, ctx).Some?
    ensures var i := FoldLoadStore(memBits, v, ctx).value;
            var other := OtherOperand(v, LoadOperand(v, ctx).value);
            (memBits == 8 ==> !i.Imm8Form?) &&
            ((memBits == 64 && other.Some? && !IsIntN(32, other.value) && !IsIntN(32, -other.value) &&
              i != IncM && i != DecM && i != NegM) ==> i == RegForm(v.opc))
  {
    var other := OtherOperand(v, LoadOperand(v, ctx).value);
    if other.Some? {
      IsIntNWidens(8, 32, other.value);
      IsIntNWidens(8, 32, -other.value);
    }
  }
}
