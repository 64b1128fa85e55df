/** The x86 condition codes and the three classifiers that ask which EFLAGS
    bits a user of a compare may read. */
module X86CondCodes {

  /** X86::CondCode: the sixteen Jcc/SETcc/CMOVcc conditions, plus the
      pseudo codes (COND_NE_OR_P, COND_E_AND_NP, COND_INVALID) that the
      classifiers treat conservatively. */
  datatype CondCode =
    | O | NO | B | AE | E | NE | BE | A | S | NS | P | NP | L | GE | LE | G
    | OtherCond

  datatype Flag = CF | PF | ZF | SF | OF

  /** The flags each condition tests, from the Jcc entry of Intel SDM Vol. 2
      (B/AE: CF=1/0; E/NE: ZF; BE/A: CF or ZF; S/NS: SF; P/NP: PF; L/GE:
      SF != OF; LE/G: ZF or SF != OF; O/NO: OF).  A pseudo code may read
      any flag. */
  function FlagsRead(cc: CondCode): set<Flag>
  {
    match cc
    case O | NO => {OF}
    case B | AE => {CF}
    case E | NE => {ZF}
    case BE | A => {CF, ZF}
    case S | NS => {SF}
    case P | NP => {PF}
    case L | GE => {SF, OF}
    case LE | G => {ZF, SF, OF}
    case OtherCond => {CF, PF, ZF, SF, OF}
  }

  /** The switch inside onlyUsesZeroFlag: a user with this condition reads
      the zero flag and nothing else. */
  function OnlyUsesZeroFlag(cc: CondCode): (r: bool)
    ensures r <==> FlagsRead(cc) == {ZF}
  {
    cc == E || cc == NE
  }

  /** The switch inside hasNoSignFlagUses: a user with this condition does
      not read the sign flag. */
  function HasNoSignFlagUse(cc: CondCode): (r: bool)
    ensures r <==> SF !in FlagsRead(cc)
  {
    match cc
    case A | AE | B | BE | E | NE | O | NO | P | NP => true
    case _ => false
  }

  /** mayUseCarryFlag: false only for the conditions that never read CF. */
  function MayUseCarryFlag(cc: CondCode): (r: bool)
    ensures r <==> CF in FlagsRead(cc)
  {
    match cc
    case O | NO | E | NE | S | NS | P | NP | L | GE | G | LE => false
    case _ => true
  }

  /** A condition that only reads ZF reads neither SF nor CF. */
  lemma ZeroFlagOnlyImpliesNoSignNoCarry(cc: CondCode)
    requires OnlyUsesZeroFlag(cc)
    ensures HasNoSignFlagUse(cc) && !MayUseCarryFlag(cc)
  {
  }
}
