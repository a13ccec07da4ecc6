/** The portable integer semantics every lowering must reproduce:
    DDI 0406 sections A2.2.1 (shifts and additions) and A8.4. */
module IntegerSemantics {
  import opened Words
  import opened Isa

  function Not(a: Word): Word {
    WORD - 1 - a
  }

  function And(a: Word, b: Word): (r: Word)
    ensures r <= b
  {
    AndWithin(a, b);
    WithinBounds(BitAnd(a, b), b);
    BitAnd(a, b)
  }

  function Or(a: Word, b: Word): (r: Word)
    ensures b <= r
  {
    Not(And(Not(a), Not(b)))
  }

  function Xor(a: Word, b: Word): Word {
    Or(a, b) - And(a, b)
  }

  datatype ShiftResult = ShiftResult(value: Word, carry: bool)

  function ShiftLeft(value: Word, amount: nat): Word {
    Wrap(value * Pow2(amount))
  }

  function ShiftRight(value: Word, amount: nat): Word {
    Shrunk(value, Pow2(amount));
    value / Pow2(amount)
  }

  function ArithmeticRight(value: Word, amount: nat): Word
    requires amount < 32
  {
    Wrap(Signed(value) / Pow2(amount))
  }

  function RotateRight(value: Word, amount: nat): Word
    requires amount < 32
  {
    Wrap(value / Pow2(amount) + value * Pow2(32 - amount))
  }

  lemma Shrunk(value: int, d: int)
    requires value >= 0 && d >= 1
    ensures 0 <= value / d <= value
  {
    var q := value / d;
    assert value == q * d + value % d;
    if q > value {
      Scale(d, 1, q);
    }
    if q < 0 {
      Scale(-1, q, d);
    }
  }

  predicate TopBit(value: Word) {
    value >= HALF
  }

  predicate BitSet(value: Word, bit: nat) {
    value / Pow2(bit) % 2 == 1
  }

  function Shift(value: Word, kind: ShiftKind, amount: nat, carry: bool, registerAmount: bool): ShiftResult {
    if registerAmount && amount == 0 then ShiftResult(value, carry)
    else
      match kind
      case Lsl =>
        if amount == 0 then ShiftResult(value, carry)
        else if amount < 32 then ShiftResult(ShiftLeft(value, amount), BitSet(value, 32 - amount))
        else ShiftResult(0, amount == 32 && value % 2 == 1)
      case Lsr =>
        var count := if amount == 0 then 32 else amount;
        if count < 32 then ShiftResult(ShiftRight(value, count), BitSet(value, count - 1))
        else ShiftResult(0, count == 32 && TopBit(value))
      case Asr =>
        var count := if amount == 0 then 32 else amount;
        if count >= 32 then ShiftResult(if TopBit(value) then WORD - 1 else 0, TopBit(value))
        else ShiftResult(ArithmeticRight(value, count), BitSet(value, count - 1))
      case Ror =>
        if amount == 0 then ShiftResult(value / 2 + (if carry then HALF else 0), value % 2 == 1)
        else
          var result := RotateRight(value, amount % 32);
          ShiftResult(result, TopBit(result))
  }

  datatype ArithmeticResult = ArithmeticResult(value: Word, carry: bool, overflow: bool)

  function AddWithCarry(a: Word, b: Word, carry: bool): ArithmeticResult {
    var wide := a + b + (if carry then 1 else 0);
    var value := Wrap(wide);
    ArithmeticResult(value, wide >= WORD,
                     TopBit(a) != TopBit(value) && TopBit(b) != TopBit(value))
  }

  datatype AluResult = AluResult(value: Word, flags: Flags)

  /** The logical results, for opcodes without an arithmetic carry chain. */
  function LogicalValue(opcode: nat, a: Word, b: Word): Word {
    match opcode
    case 0 => And(a, b)
    case 8 => And(a, b)
    case 1 => Xor(a, b)
    case 9 => Xor(a, b)
    case 12 => Or(a, b)
    case 13 => b
    case 14 => And(a, Not(b))
    case 15 => Not(b)
    case 16 => Or(a, Not(b))
    case _ => 0
  }

  function Arithmetic(opcode: nat, a: Word, b: Word, carry: bool): ArithmeticResult {
    match opcode
    case 2 => AddWithCarry(a, Not(b), true)
    case 10 => AddWithCarry(a, Not(b), true)
    case 3 => AddWithCarry(b, Not(a), true)
    case 4 => AddWithCarry(a, b, false)
    case 11 => AddWithCarry(a, b, false)
    case 5 => AddWithCarry(a, b, carry)
    case 6 => AddWithCarry(a, Not(b), carry)
    case _ => AddWithCarry(b, Not(a), carry)
  }

  function CalculateAlu(opcode: nat, setFlags: bool, a: Word, shifted: ShiftResult, flags: Flags): AluResult {
    if IsLogical(opcode) then
      var value := LogicalValue(opcode, a, shifted.value);
      AluResult(value,
                if setFlags then flags.(n := TopBit(value), z := value == 0, c := shifted.carry) else flags)
    else
      var result := Arithmetic(opcode, a, shifted.value, flags.c);
      AluResult(result.value,
                if setFlags then Flags(TopBit(result.value), result.value == 0, result.carry, result.overflow)
                else flags)
  }

  /** The operand and shifter carry of a data-processing instruction. */
  function Operand(inst: Instruction, rm: Word, rs: Word, carry: bool): ShiftResult {
    if inst.immediateOperand then
      ShiftResult(inst.immediate, if inst.shiftAmount == 0 then carry else TopBit(inst.immediate))
    else
      Shift(rm, inst.shift, if inst.registerShift then rs % 256 else inst.shiftAmount,
            carry, inst.registerShift)
  }
}
