/** The x86 addressing-mode record X86ISelAddressMode that instruction
    selection fills in while it walks an address computation
    (base + index * scale + displacement, with an optional segment and an
    optional symbolic displacement), the steps that update it in place, and
    the flattening of the finished record into the five memory operands. */
module X86AddressMode {
  import opened Wrappers
  import opened X86Words

  // ---------------------------------------------------------------------
  // The selection DAG, as far as the matcher looks at it

  datatype PhysRegister = Rip | FsSegment | GsSegment | NoRegister

  datatype AddrSpace = GsSpace | FsSpace | SsSpace | OtherSpace

  /** The symbol wrapped by an X86ISD::Wrapper / WrapperRIP node. */
  datatype SymbolRef =
    | GlobalAddress(id: nat, offset: int, flags: nat, tls: bool)
    | ConstantPool(id: nat, align: nat, offset: int, flags: nat)
    | ExternalSymbol(id: nat, flags: nat)
    | MCSymbol(id: nat)
    | JumpTable(index: nat, flags: nat)
    | BlockAddress(id: nat, offset: int, flags: nat)

  datatype Node =
      /** ISD::Constant, by its sign-extended value. */
    | Const(value: int)
    | Wrapper(ripRel: bool, sym: SymbolRef)
      /** ISD::LOCAL_RECOVER; `mcSym` is its operand when that is an
          MCSymbol node. */
    | LocalRecover(mcSym: Option<nat>)
    | FrameIndex(index: int)
    | Load(addr: Node, addrSpace: AddrSpace)
    | Add(lhs: Node, rhs: Node)
    | Or(lhs: Node, rhs: Node)
    | Sub(lhs: Node, rhs: Node)
    | And(lhs: Node, rhs: Node)
    | Shl(lhs: Node, rhs: Node)
    | Srl(lhs: Node, rhs: Node)
      /** ISD::MUL, X86ISD::MUL_IMM, or a result of S/UMUL_LOHI
          (`highHalf` for its second result). */
    | Mul(lhs: Node, rhs: Node, highHalf: bool)
    | ZeroExtend(operand: Node)
    | AnyExtend(operand: Node)
    | Truncate(operand: Node)
    | CopyFromReg(virtReg: nat)
    | PhysReg(reg: PhysRegister)
      /** A node built by a rewrite from `origin` (a narrower shift, a new
          mask, a zero extension). */
    | Derived(origin: Node)
      /** The NEG of an index register emitted by getAddressOperands. */
    | Negated(operand: Node)
    | Opaque(id: nat)

  datatype CodeModel = Tiny | Small | Kernel | Medium | Large

  /** The subtarget, and the answers of the SelectionDAG and target queries
      whose code is not part of this model. */
  datatype Target = Target(
    is64Bit: bool,
    codeModel: CodeModel,
    /** X86::isOffsetSuitableForCodeModel(Val, M, hasSymbolicDisplacement). */
    offsetSuitable: (int, bool) -> bool,
    /** (glibc || Android || Fuchsia) && !IndirectTlsSegRefs. */
    tlsSegmentLoads: bool,
    /** hasTBM() || (hasBMI() && hasFastBEXTR()). */
    preferBextr: bool,
    hasOneUse: Node -> bool,
    haveNoCommonBitsSet: (Node, Node) -> bool,
    maskedValueIsZero: (Node, Word) -> bool,
    /** The Zero mask of computeKnownBits. */
    knownZero: Node -> Word,
    /** The value size in bits. */
    valueBits: Node -> nat,
    /** An X86ISD ADD/SUB/ADC/SBB whose flag result is used. */
    mathWithLiveFlags: Node -> bool)

  /** After type legalization every scalar integer value is i8, i16, i32
      or i64, and an ANY_EXTEND does not narrow. */
  ghost predicate WellFormedTarget(t: Target)
  {
    forall n :: t.valueBits(n) in {8, 16, 32, 64} &&
                (n.AnyExtend? ==> t.valueBits(n.operand) <= t.valueBits(n))
  }

  // ---------------------------------------------------------------------
  // The record

  datatype BaseType = RegBase | FrameIndexBase

  /** The symbolic-displacement fields of the record: a global, a constant
      pool entry (with its alignment), an external symbol, an MC symbol, a
      jump table (-1 for none) or a block address, and the operand flags of
      the symbol. */
  datatype SymbolFields = SymbolFields(
    gv: Option<nat>,
    cp: Option<nat>,
    blockAddr: Option<nat>,
    es: Option<nat>,
    mcSym: Option<nat>,
    jt: int,
    alignment: nat,
    symbolFlags: nat)

  const NoSymbol := SymbolFields(None, None, None, None, None, -1, 1, 0)

  /** A snapshot of every field of the record (the `Backup = AM` copy). */
  datatype AMState = AMState(
    baseType: BaseType,
    baseReg: Option<Node>,
    baseFrameIndex: int,
    scale: nat,
    indexReg: Option<Node>,
    disp: int,
    segment: Option<Node>,
    symbol: SymbolFields,
    negateIndex: bool)

  const EmptyState := AMState(RegBase, None, 0, 1, None, 0, None, NoSymbol, false)

  predicate HasSymbolicDisplacement(s: AMState)
  {
    var y := s.symbol;
    y.gv.Some? || y.cp.Some? || y.es.Some? || y.mcSym.Some? || y.jt != -1 || y.blockAddr.Some?
  }

  function SymbolCount(s: AMState): nat
  {
    var y := s.symbol;
    (if y.gv.Some? then 1 else 0) + (if y.cp.Some? then 1 else 0) +
    (if y.es.Some? then 1 else 0) + (if y.mcSym.Some? then 1 else 0) +
    (if y.jt != -1 then 1 else 0) + (if y.blockAddr.Some? then 1 else 0)
  }

  /** An external or MC symbol: the kinds that take no offset. */
  predicate HasOffsetlessSymbol(s: AMState)
  {
    s.symbol.es.Some? || s.symbol.mcSym.Some?
  }

  predicate HasBaseOrIndexReg(s: AMState)
  {
    s.baseType == FrameIndexBase || s.indexReg.Some? || s.baseReg.Some?
  }

  predicate IsRipRelative(s: AMState)
  {
    s.baseType == RegBase && s.baseReg == Some(PhysReg(Rip))
  }

  /** What every step keeps:
      - the scale is one an x86 SIB byte encodes;
      - without an index the scale is 1 and nothing is negated, and a
        negated index is never scaled;
      - at most one of the six symbolic displacements is set;
      - an external or MC symbol carries no integer displacement;
      - the displacement is an int32;
      - a frame-index base leaves the base register empty. */
  predicate ValidState(s: AMState)
  {
    ValidLayout(s) && (HasOffsetlessSymbol(s) ==> s.disp == 0)
  }

  /** All of ValidState but the displacement of an offsetless symbol, which
      matchWrapper settles by folding the symbol's offset. */
  predicate ValidLayout(s: AMState)
  {
    s.scale in {1, 2, 4, 8} &&
    (s.indexReg.None? ==> s.scale == 1 && !s.negateIndex) &&
    (s.negateIndex ==> s.scale == 1) &&
    SymbolCount(s) <= 1 &&
    -0x8000_0000 <= s.disp < 0x8000_0000 &&
    (s.baseType == FrameIndexBase ==> s.baseReg.None?) &&
    s.symbol.jt >= -1
  }

  /** A step only fills free slots: a base, an index (with its scale and
      negation), a symbol or a segment already chosen is kept. */
  predicate KeepsChosenSlots(before: AMState, after: AMState)
  {
    (before.baseType == FrameIndexBase ==>
       after.baseType == FrameIndexBase && after.baseFrameIndex == before.baseFrameIndex) &&
    (before.baseReg.Some? ==> after.baseType == before.baseType && after.baseReg == before.baseReg) &&
    (before.indexReg.Some? ==>
       after.indexReg == before.indexReg && after.scale == before.scale &&
       after.negateIndex == before.negateIndex) &&
    (HasSymbolicDisplacement(before) ==> after.symbol == before.symbol) &&
    (before.segment.Some? ==> after.segment == before.segment)
  }

  /** The result of a match step: the record stays valid, a failed step
      leaves it exactly as it was, and a successful one only fills free
      slots. */
  predicate MatchOutcome(before: AMState, after: AMState, failed: bool)
  {
    ValidState(after) &&
    (failed ==> after == before) &&
    KeepsChosenSlots(before, after)
  }

  class AddressMode {
    var baseType: BaseType
    var baseReg: Option<Node>
    var baseFrameIndex: int
    var scale: nat
    var indexReg: Option<Node>
    var disp: int
    var segment: Option<Node>
    var symbol: SymbolFields
    var negateIndex: bool

    function State(): AMState
      reads this
    {
      AMState(baseType, baseReg, baseFrameIndex, scale, indexReg, disp, segment, symbol, negateIndex)
    }

    predicate Valid()
      reads this
    {
      ValidState(State())
    }

    constructor()
      ensures State() == EmptyState && Valid()
    {
      baseType, baseReg, baseFrameIndex, scale, indexReg := RegBase, None, 0, 1, None;
      disp, segment, symbol, negateIndex := 0, None, NoSymbol, false;
    }

    /** `AM = Backup`. */
    method Restore(s: AMState)
      modifies this
      ensures State() == s
    {
      baseType, baseReg, baseFrameIndex, scale, indexReg := s.baseType, s.baseReg, s.baseFrameIndex, s.scale, s.indexReg;
      disp, segment, symbol, negateIndex := s.disp, s.segment, s.symbol, s.negateIndex;
    }
  }

  // ---------------------------------------------------------------------
  // foldOffsetIntoAddress

  /** isDispSafeForFrameIndex: a 31-bit displacement cannot overflow the
      32-bit field once the frame offset is added. */
  predicate DispSafeForFrameIndex(v: int)
  {
    IsIntN(31, v)
  }

  /** `int64_t Val = AM.Disp + Offset`, the offset arriving as a uint64_t. */
  function OffsetSum(s: AMState, offset: int): int
  {
    S64(s.disp + offset)
  }

  /** The three reasons foldOffsetIntoAddress refuses an offset.  A zero
      sum is never refused, and in 32-bit mode only an external or MC
      symbol refuses a non-zero one. */
  predicate OffsetRejected(t: Target, s: AMState, offset: int)
    ensures OffsetRejected(t, s, offset) ==> OffsetSum(s, offset) != 0
    ensures !t.is64Bit ==>
              (OffsetRejected(t, s, offset) <==> OffsetSum(s, offset) != 0 && HasOffsetlessSymbol(s))
  {
    var v := OffsetSum(s, offset);
    (v != 0 && HasOffsetlessSymbol(s)) ||
    (t.is64Bit && v != 0 && !t.offsetSuitable(v, HasSymbolicDisplacement(s))) ||
    (t.is64Bit && s.baseType == FrameIndexBase && !DispSafeForFrameIndex(v))
  }

  /** The record once the offset is folded: only the displacement
      changes, and it stays an int32. */
  function Folded(s: AMState, offset: int): (r: AMState)
    ensures r == s.(disp := r.disp) && -0x8000_0000 <= r.disp < 0x8000_0000
  {
    s.(disp := S32(OffsetSum(s, offset)))
  }

  lemma FoldedIsValid(t: Target, s: AMState, offset: int)
    requires ValidLayout(s) && !OffsetRejected(t, s, offset)
    ensures ValidState(Folded(s, offset))
  {
  }

  /** foldOffsetIntoAddress: adds the offset to the displacement, or fails
      leaving the record unchanged.  The int64 sum is stored into the
      int32_t field, which keeps its low 32 bits. */
  method FoldOffsetIntoAddress(t: Target, offset: int, am: AddressMode) returns (failed: bool)
    modifies am
    ensures failed <==> OffsetRejected(t, old(am.State()), offset)
    ensures failed ==> am.State() == old(am.State())
    ensures !failed ==> am.State() == Folded(old(am.State()), offset)
    ensures !failed && ValidLayout(old(am.State())) ==> am.Valid()
    ensures ValidState(old(am.State())) ==> MatchOutcome(old(am.State()), am.State(), failed)
  {
    var v := OffsetSum(am.State(), offset);
    failed := (v != 0 && HasOffsetlessSymbol(am.State())) ||
              (t.is64Bit && v != 0 && !t.offsetSuitable(v, HasSymbolicDisplacement(am.State()))) ||
              (t.is64Bit && am.baseType == FrameIndexBase && !DispSafeForFrameIndex(v));
    if !failed {
      if ValidLayout(am.State()) {
        FoldedIsValid(t, am.State(), offset);
      }
      am.disp := S32(v);
    }
  }

  /** In 64-bit mode a folded displacement passed the code-model check, and
      next to a frame index it is a 31-bit value. */
  lemma FoldOffsetConditions(t: Target, s: AMState, offset: int)
    ensures var v := OffsetSum(s, offset);
            !OffsetRejected(t, s, offset) && t.is64Bit ==>
              (v != 0 ==> t.offsetSuitable(v, HasSymbolicDisplacement(s))) &&
              (s.baseType == FrameIndexBase ==> IsIntN(31, v))
  {
  }

  // ---------------------------------------------------------------------
  // matchAddressBase

  /** The node as base register when that slot is free, else as index
      register with scale 1 when that one is, else failure. */
  method MatchAddressBase(n: Node, am: AddressMode) returns (failed: bool)
    requires am.Valid()
    modifies am
    ensures var s := old(am.State());
            if s.baseType == RegBase && s.baseReg.None? then
              !failed && am.State() == s.(baseReg := Some(n))
            else if s.indexReg.None? then
              !failed && am.State() == s.(indexReg := Some(n), scale := 1)
            else
              failed
    ensures MatchOutcome(old(am.State()), am.State(), failed)
  {
    if am.baseType != RegBase || am.baseReg.Some? {
      if am.indexReg.None? {
        am.indexReg := Some(n);
        am.scale := 1;
        return false;
      }
      return true;
    }
    am.baseType := RegBase;
    am.baseReg := Some(n);
    return false;
  }

  // ---------------------------------------------------------------------
  // matchWrapper

  /** The symbol fields with the wrapped symbol (and its alignment and
      flags) recorded. */
  function RecordSymbol(y: SymbolFields, sym: SymbolRef): SymbolFields
  {
    match sym
    case GlobalAddress(id, _, flags, _) => y.(gv := Some(id), symbolFlags := flags)
    case ConstantPool(id, align, _, flags) => y.(cp := Some(id), alignment := align, symbolFlags := flags)
    case ExternalSymbol(id, flags) => y.(es := Some(id), symbolFlags := flags)
    case MCSymbol(id) => y.(mcSym := Some(id))
    case JumpTable(index, flags) => y.(jt := index, symbolFlags := flags)
    case BlockAddress(id, _, flags) => y.(blockAddr := Some(id), symbolFlags := flags)
  }

  /** The record with the wrapped symbol recorded, before its offset is
      folded. */
  function WithSymbol(s: AMState, sym: SymbolRef): AMState
  {
    s.(symbol := RecordSymbol(s.symbol, sym))
  }

  /** Recording a symbol in a record without one keeps its layout and
      makes the symbol its only one. */
  lemma RecordSymbolLayout(s: AMState, sym: SymbolRef)
    requires ValidState(s) && !HasSymbolicDisplacement(s)
    ensures ValidLayout(WithSymbol(s, sym)) && SymbolCount(WithSymbol(s, sym)) == 1
  {
  }

  function SymbolOffset(sym: SymbolRef): int
  {
    match sym
    case GlobalAddress(_, offset, _, _) => offset
    case ConstantPool(_, _, offset, _) => offset
    case BlockAddress(_, offset, _) => offset
    case _ => 0
  }

  /** The code-model and RIP conditions under which matchWrapper refuses
      before touching the record. */
  predicate WrapperRefused(t: Target, ripRel: bool, sym: SymbolRef, s: AMState)
  {
    var ripRelTls := ripRel && sym.GlobalAddress? && sym.tls;
    HasSymbolicDisplacement(s) ||
    (t.is64Bit && ((t.codeModel == Large && !ripRelTls) || (t.codeModel == Medium && !ripRel))) ||
    (ripRel && HasBaseOrIndexReg(s))
  }

  /** What matchWrapper makes of the record: None when it fails. */
  function WrapperMatch(t: Target, ripRel: bool, sym: SymbolRef, s: AMState): Option<AMState>
  {
    if WrapperRefused(t, ripRel, sym, s) then None
    else
      var w := WithSymbol(s, sym);
      if OffsetRejected(t, w, SymbolOffset(sym)) then None
      else
        var folded := Folded(w, SymbolOffset(sym));
        Some(if ripRel then folded.(baseType := RegBase, baseReg := Some(PhysReg(Rip))) else folded)
  }

  /** A matched wrapper leaves a valid record whose one symbol is the
      wrapped one, with the symbol's offset added to the displacement; a RIP
      wrapper only matches a record without base, index or symbol, and
      makes RIP its base. */
  lemma WrapperMatchIsValid(t: Target, ripRel: bool, sym: SymbolRef, s: AMState)
    requires ValidState(s)
    ensures var r := WrapperMatch(t, ripRel, sym, s);
            r.Some? ==>
              ValidState(r.value) && SymbolCount(r.value) == 1 && !HasSymbolicDisplacement(s) &&
              r.value.symbol == RecordSymbol(s.symbol, sym) &&
              r.value.disp == S32(OffsetSum(s, SymbolOffset(sym))) &&
              r.value.segment == s.segment && r.value.indexReg == s.indexReg &&
              (ripRel ==> !HasBaseOrIndexReg(s) && IsRipRelative(r.value))
  {
    if WrapperMatch(t, ripRel, sym, s).Some? {
      RecordSymbolLayout(s, sym);
      FoldedIsValid(t, WithSymbol(s, sym), SymbolOffset(sym));
    }
  }

  /** In 64-bit mode the large code model takes only RIP-relative TLS
      wrappers, and the medium one only RIP-relative wrappers. */
  lemma WrapperCodeModelLimits(t: Target, ripRel: bool, sym: SymbolRef, s: AMState)
    requires t.is64Bit && WrapperMatch(t, ripRel, sym, s).Some?
    ensures t.codeModel == Large ==> ripRel && sym.GlobalAddress? && sym.tls
    ensures t.codeModel == Medium ==> ripRel
  {
  }

  /** matchWrapper: records the symbol and folds its offset; on any failure
      the record is restored from its backup.  A RIP wrapper makes RIP the
      base. */
  method MatchWrapper(t: Target, ripRel: bool, sym: SymbolRef, am: AddressMode) returns (failed: bool)
    requires am.Valid()
    modifies am
    ensures failed <==> WrapperMatch(t, ripRel, sym, old(am.State())).None?
    ensures !failed ==> am.State() == WrapperMatch(t, ripRel, sym, old(am.State())).value
    ensures MatchOutcome(old(am.State()), am.State(), failed)
  {
    WrapperMatchIsValid(t, ripRel, sym, am.State());
    failed := WrapperRefused(t, ripRel, sym, am.State());
    if !failed {
      var backup := am.State();
      RecordSymbolLayout(backup, sym);
      am.symbol := RecordSymbol(am.symbol, sym);
      failed := FoldOffsetIntoAddress(t, SymbolOffset(sym), am);
      if failed {
        am.Restore(backup);
      } else if ripRel {
        am.baseType := RegBase;
        am.baseReg := Some(PhysReg(Rip));
      }
    }
  }

  // ---------------------------------------------------------------------
  // matchAddress post-processing

  /** The two rewrites matchAddress applies to a successful match:
      (,%reg,2) becomes (%reg,%reg), and in the small and kernel code
      models of 64-bit mode a lone unflagged symbol gets RIP as base. */
  function PostProcessed(t: Target, s: AMState): (r: AMState)
    ensures ValidState(s) ==> ValidState(r)
    ensures r.indexReg == s.indexReg && r.disp == s.disp && r.segment == s.segment &&
            r.baseType == s.baseType && SymbolCount(r) == SymbolCount(s)
  {
    var s1 := if s.scale == 2 && s.baseType == RegBase && s.baseReg.None?
              then s.(baseReg := s.indexReg, scale := 1) else s;
    if (t.codeModel == Small || t.codeModel == Kernel) && t.is64Bit &&
       s1.scale == 1 && s1.baseType == RegBase && s1.baseReg.None? && s1.indexReg.None? &&
       s1.symbol.symbolFlags == 0 && HasSymbolicDisplacement(s1)
    then s1.(baseReg := Some(PhysReg(Rip)))
    else s1
  }

  /** Post-processing a post-processed record changes nothing. */
  lemma PostProcessIdempotent(t: Target, s: AMState)
    requires ValidState(s)
    ensures PostProcessed(t, PostProcessed(t, s)) == PostProcessed(t, s)
  {
  }

  /** The address value base + index * scale is unchanged by the first
      rewrite: the register used as base is the index itself. */
  lemma PostProcessKeepsScaledIndex(t: Target, s: AMState)
    requires ValidState(s) && s.scale == 2 && s.baseType == RegBase && s.baseReg.None?
    ensures var r := PostProcessed(t, s);
            r.baseReg == s.indexReg && r.indexReg == s.indexReg && r.scale == 1 && !r.negateIndex
  {
  }

  // ---------------------------------------------------------------------
  // getAddressOperands

  datatype BaseOperand = FrameIndexOperand(index: int) | RegOperand(reg: Node) | NoBaseRegister

  datatype DispOperand =
    | GlobalDisp(id: nat, offset: int, flags: nat)
    | ConstantPoolDisp(id: nat, align: nat, offset: int, flags: nat)
    | ExternalSymbolDisp(id: nat, flags: nat)
    | MCSymbolDisp(id: nat)
    | JumpTableDisp(index: nat, flags: nat)
    | BlockAddressDisp(id: nat, offset: int, flags: nat)
    | ImmDisp(value: int)

  /** The five memory operands; a None register is register 0. */
  datatype AddressOperands = AddressOperands(base: BaseOperand, scale: nat, index: Option<Node>,
                                             disp: DispOperand, segment: Option<Node>)

  function DispOperandOf(s: AMState): DispOperand
    requires s.symbol.jt >= -1
  {
    var y := s.symbol;
    if y.gv.Some? then GlobalDisp(y.gv.value, s.disp, y.symbolFlags)
    else if y.cp.Some? then ConstantPoolDisp(y.cp.value, y.alignment, s.disp, y.symbolFlags)
    else if y.es.Some? then ExternalSymbolDisp(y.es.value, y.symbolFlags)
    else if y.mcSym.Some? then MCSymbolDisp(y.mcSym.value)
    else if y.jt != -1 then JumpTableDisp(y.jt, y.symbolFlags)
    else if y.blockAddr.Some? then BlockAddressDisp(y.blockAddr.value, s.disp, y.symbolFlags)
    else ImmDisp(s.disp)
  }

  /** The integer displacement a displacement operand carries. */
  function CarriedDisp(d: DispOperand): int
  {
    match d
    case GlobalDisp(_, offset, _) => offset
    case ConstantPoolDisp(_, _, offset, _) => offset
    case BlockAddressDisp(_, offset, _) => offset
    case ImmDisp(value) => value
    case _ => 0
  }

  /** getAddressOperands: flattens the record; a negated index is replaced,
      in the record too, by a NEG of it. */
  method GetAddressOperands(am: AddressMode) returns (ops: AddressOperands)
    requires am.Valid()
    modifies am
    ensures var s := old(am.State());
            am.State() == (if s.negateIndex then s.(indexReg := Some(Negated(s.indexReg.value))) else s)
    ensures var s := old(am.State());
            ops.base == (if s.baseType == FrameIndexBase then FrameIndexOperand(s.baseFrameIndex)
                         else if s.baseReg.Some? then RegOperand(s.baseReg.value) else NoBaseRegister) &&
            ops.scale == s.scale && ops.segment == s.segment &&
            ops.index == (if s.negateIndex then Some(Negated(s.indexReg.value)) else s.indexReg) &&
            ops.disp == DispOperandOf(s)
  {
    var base: BaseOperand;
    if am.baseType == FrameIndexBase {
      base := FrameIndexOperand(am.baseFrameIndex);
    } else if am.baseReg.Some? {
      base := RegOperand(am.baseReg.value);
    } else {
      base := NoBaseRegister;
    }
    if am.negateIndex {
      am.indexReg := Some(Negated(am.indexReg.value));
    }
    ops := AddressOperands(base, am.scale, am.indexReg, DispOperandOf(am.State()), am.segment);
  }

  /** The displacement operand names the record's one symbol and carries
      the integer displacement, except for a jump table, the only symbol
      kind that can drop a non-zero displacement (external and MC symbols
      never have one). */
  lemma DispOperandCarriesDisplacement(s: AMState)
    requires ValidState(s)
    ensures HasSymbolicDisplacement(s) <==> !DispOperandOf(s).ImmDisp?
    ensures !DispOperandOf(s).JumpTableDisp? ==> CarriedDisp(DispOperandOf(s)) == s.disp
  {
  }
}
