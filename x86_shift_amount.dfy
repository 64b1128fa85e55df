/** tryShiftAmountMod: x86 shifts use only the low 5 bits (6 for 64-bit
    operands) of the count, so a count computed as X + N, X - N or N - X
    with N a multiple of the operand width can shift by X, or by -X
    (a NEG instead of a SUB from a constant). */
module X86ShiftAmount {

  /** An operand of the count's ADD or SUB: a constant (zero-extended) or
      anything else. */
  datatype AmountOperand = ConstAmount(c: nat) | VarAmount

  /** The count operand of the shift, a truncate of it already skipped. */
  datatype ShiftAmount =
    | AddAmount(op0: AmountOperand, op1: AmountOperand)
    | SubAmount(op0: AmountOperand, op1: AmountOperand)
    | OtherAmount

  datatype AmountRewrite =
    | NoRewrite
      /** Shift by (trunc i8 op0) & (Size - 1). */
    | ShiftByOperand0
      /** Shift by (trunc i8 (0 - op1)) & (Size - 1). */
    | ShiftByNegatedOperand1

  /** The count bits the hardware reads: 64 for 64-bit shifts, 32 for all
      narrower ones. */
  function CountModulus(vtBits: nat): (s: nat)
    ensures s in {32, 64}
  {
    if vtBits == 64 then 64 else 32
  }

  function TryShiftAmountMod(isVector: bool, vtBits: nat, amount: ShiftAmount): (r: AmountRewrite)
    ensures r == ShiftByOperand0 ==>
              !isVector && (amount.AddAmount? || amount.SubAmount?) &&
              amount.op1.ConstAmount? && amount.op1.c % CountModulus(vtBits) == 0
    ensures r == ShiftByNegatedOperand1 ==>
              !isVector && amount.SubAmount? && amount.op0.ConstAmount? &&
              amount.op0.c != 0 && amount.op0.c % CountModulus(vtBits) == 0
    ensures r == NoRewrite <==>
              isVector || amount.OtherAmount? ||
              (!(amount.op1.ConstAmount? && amount.op1.c % CountModulus(vtBits) == 0) &&
               !(amount.SubAmount? && amount.op0.ConstAmount? && amount.op0.c != 0 &&
                 amount.op0.c % CountModulus(vtBits) == 0))
  {
    var size := CountModulus(vtBits);
    if isVector then NoRewrite
    else match amount
      case OtherAmount => NoRewrite
      case AddAmount(a0, a1) =>
        if a1.ConstAmount? && a1.c % size == 0 then ShiftByOperand0 else NoRewrite
      case SubAmount(a0, a1) =>
        if a1.ConstAmount? && a1.c % size == 0 then ShiftByOperand0
        else if a0.ConstAmount? && a0.c != 0 && a0.c % size == 0 then ShiftByNegatedOperand1
        else NoRewrite
  }

  /** 2^w for the integer widths a count can have. */
  function WidthModulus(w: nat): nat
    requires w in {8, 16, 32, 64}
  {
    if w == 8 then 0x100 else if w == 16 then 0x1_0000
    else if w == 32 then 0x1_0000_0000 else 0x1_0000_0000_0000_0000
  }

  lemma ModAddMultiple(x: int, k: int, s: nat)
    requires s in {32, 64}
    ensures (x + k * s) % s == x % s
  {
  }

  /** Reducing modulo a multiple of s first does not change the value
      modulo s. */
  lemma ModOfMultiple(x: int, k: nat, s: nat)
    requires s in {32, 64} && k > 0
    ensures x % (k * s) % s == x % s
  {
    var m := k * s;
    var q, r := x / m, x % m;
    assert x == q * m + r;
    assert q * m == (q * k) * s;
    ModAddMultiple(r, q * k, s);
  }

  /** Reducing modulo a width's 2^w first does not change the value modulo
      32 or 64. */
  lemma ModWidthThenCount(x: int, w: nat, s: nat)
    requires w in {8, 16, 32, 64} && s in {32, 64}
    ensures x % WidthModulus(w) % s == x % s
  {
    var k := WidthModulus(w) / s;
    assert WidthModulus(w) == k * s;
    ModOfMultiple(x, k, s);
  }

  /** The count the hardware uses is unchanged: the original count is the
      ADD/SUB at its width `w`, possibly truncated to `t` bits; the new one
      is X or -X at width `w`, truncated to 8 bits and masked with
      Size - 1.  `v0` and `v1` are the operands' values. */
  lemma RewriteKeepsShiftCount(isVector: bool, vtBits: nat, amount: ShiftAmount,
                               w: nat, t: nat, v0: int, v1: int)
    requires w in {8, 16, 32, 64} && t in {8, 16, 32, 64} && t <= w
    requires amount.AddAmount? || amount.SubAmount?
    requires amount.op0.ConstAmount? ==> v0 == amount.op0.c
    requires amount.op1.ConstAmount? ==> v1 == amount.op1.c
    ensures var r := TryShiftAmountMod(isVector, vtBits, amount);
            var s := CountModulus(vtBits);
            var orig := if amount.AddAmount? then v0 + v1 else v0 - v1;
            var before := orig % WidthModulus(w) % WidthModulus(t) % s;
            (r == ShiftByOperand0 ==> before == v0 % WidthModulus(w) % 0x100 % s) &&
            (r == ShiftByNegatedOperand1 ==> before == (0 - v1) % WidthModulus(w) % 0x100 % s)
  {
    var r := TryShiftAmountMod(isVector, vtBits, amount);
    var s := CountModulus(vtBits);
    var orig := if amount.AddAmount? then v0 + v1 else v0 - v1;
    ModWidthThenCount(orig % WidthModulus(w), t, s);
    ModWidthThenCount(orig, w, s);
    if r == ShiftByOperand0 {
      ModWidthThenCount(v0 % WidthModulus(w), 8, s);
      ModWidthThenCount(v0, w, s);
      var k := v1 / s;
      assert v1 == k * s;
      if amount.AddAmount? {
        ModAddMultiple(v0, k, s);
      } else {
        ModAddMultiple(v0, -k, s);
      }
    } else if r == ShiftByNegatedOperand1 {
      ModWidthThenCount((0 - v1) % WidthModulus(w), 8, s);
      ModWidthThenCount(0 - v1, w, s);
      var k := v0 / s;
      assert v0 == k * s;
      ModAddMultiple(0 - v1, k, s);
    }
  }
}
