/** Decoded guest instructions and the register and flag sets they touch. */
module Isa {
  import opened Words

  datatype ShiftKind = Lsl | Lsr | Asr | Ror

  /** Instruction families. Families whose operands live in the vector variant
      of the source carry the operands used by these analyses. */
  datatype Kind =
    | Unsupported | DataProcessing | Multiply | Transfer | ExclusiveTransfer | Swap
    | ClearExclusive | MultipleTransfer | Branch | BranchExchange | TableBranch | Svc
    | Breakpoint | IfThen | Nop | CompareBranch | WideImmediate | PackHalfword
    | IntegerTransform | VectorDuplicate(coreSource: bool, source: Reg) | VectorBitwise
    | VectorExtract | VectorCoreMove(toCore: bool, core: Reg, core2: Reg, pair: bool)
    | FloatingConversion | FloatingArithmetic | FloatingComparison | FloatingImmediate
    | FloatingSystem(systemToCore: bool, systemCore: Reg)
    | VectorTransfer(scalarMultiple: bool, length: nat, elementSize: nat, alignment: nat)
    | SystemControl(programStatus: bool) | DualTransfer | VectorImmediate | ParallelSaturating
    | IntegerDivide | VectorFloatingArithmetic | ParallelArithmetic | SaturatingArithmetic
    | VectorIntegerArithmetic | VectorReverse | VectorShiftImmediate | VectorFloatingConversion

  datatype Instruction = Instruction(
    kind: Kind,
    condition: nat,
    size: nat,
    opcode: nat,
    rd: Reg, rn: Reg, rm: Reg, rs: Reg,
    shift: ShiftKind,
    shiftAmount: nat,
    immediate: Word,
    immediateOperand: bool,
    registerShift: bool,
    setFlags: bool,
    link: bool,
    accumulate: bool,
    registers: set<Reg>,
    accessSize: nat,
    load: bool, signExtend: bool,
    add: bool, index: bool, writeback: bool)

  predicate IsTest(opcode: nat) {
    8 <= opcode <= 11
  }

  predicate IsLogical(opcode: nat) {
    opcode == 0 || opcode == 1 || opcode == 8 || opcode == 9 || opcode >= 12
  }

  /** Multiply operations in the order of the source's enumeration. */
  predicate MultiplyWritesPair(opcode: nat) {
    opcode == 2 || opcode == 3 || opcode == 8 || opcode == 11 || opcode == 12
  }

  /** Saturations whose lowering compares, by the source's numbering of operations:
      words and halfwords of either signedness, then the saturating sums. */
  predicate SaturationCompares(opcode: nat, immediate: nat) {
    match opcode
    case 0 => immediate != 32
    case 2 => immediate != 16
    case 1 => immediate < 31
    case 3 => immediate < 15
    case _ => true
  }

  /** The registers an executed, in-line retired instruction may write. */
  function WrittenRegisters(inst: Instruction): set<Reg> {
    (match inst.kind
     case FloatingSystem(toCore, core) => if toCore && core != 15 then {core} else {}
     case VectorCoreMove(toCore, core, core2, pair) =>
       if toCore then (if pair then {core, core2} else {core}) else {}
     case DataProcessing => if IsTest(inst.opcode) then {} else {inst.rd}
     case Multiply => if MultiplyWritesPair(inst.opcode) then {inst.rd, inst.rn} else {inst.rd}
     case IntegerDivide => {inst.rd}
     case PackHalfword => {inst.rd}
     case IntegerTransform => {inst.rd}
     case ParallelSaturating => {inst.rd}
     case ParallelArithmetic => {inst.rd}
     case SaturatingArithmetic => {inst.rd}
     case WideImmediate => {inst.rd}
     case Swap => {inst.rd}
     case Transfer => if inst.load then {inst.rd} else {}
     case DualTransfer => if inst.load then {inst.rd, inst.rs} else {}
     case SystemControl(_) => if inst.load then {inst.rd} else {}
     case MultipleTransfer => if inst.load then inst.registers else {}
     case Branch => if inst.link then {14} else {}
     case BranchExchange => if inst.link then {14} else {}
     case _ => {})
    + (if inst.writeback && (inst.kind.Transfer? || inst.kind.DualTransfer? ||
                             inst.kind.VectorTransfer? || inst.kind.MultipleTransfer?)
       then {inst.rn} else {})
  }

  datatype Flag = N | Z | C | V
  const ALL_FLAGS: set<Flag> := {N, Z, C, V}

  lemma AllFlags(mask: set<Flag>)
    ensures mask <= ALL_FLAGS
  {
    forall f | f in mask
      ensures f in ALL_FLAGS
    {
      match f case N => case Z => case C => case V =>
    }
  }

  datatype Flags = Flags(n: bool, z: bool, c: bool, v: bool) {
    function Get(f: Flag): bool {
      match f case N => n case Z => z case C => c case V => v
    }
  }

  predicate ConditionPassed(condition: nat, f: Flags) {
    match condition
    case 0 => f.z
    case 1 => !f.z
    case 2 => f.c
    case 3 => !f.c
    case 4 => f.n
    case 5 => !f.n
    case 6 => f.v
    case 7 => !f.v
    case 8 => f.c && !f.z
    case 9 => !f.c || f.z
    case 10 => f.n == f.v
    case 11 => f.n != f.v
    case 12 => !f.z && f.n == f.v
    case 13 => f.z || f.n != f.v
    case 14 => true
    case _ => false
  }

  function ConditionReads(condition: nat): set<Flag> {
    match condition / 2
    case 0 => {Z}
    case 1 => {C}
    case 2 => {N}
    case 3 => {V}
    case 4 => {C, Z}
    case 5 => {N, V}
    case 6 => {N, V, Z}
    case _ => {}
  }

  datatype FlagEffects = FlagEffects(
    read: set<Flag>, possibleWrite: set<Flag>, guaranteedWrite: set<Flag>, boundary: bool)

  /** NZCV dependencies of one instruction; a boundary exposes the exact flags. */
  function EffectsOf(inst: Instruction): FlagEffects {
    var conditionOnly := FlagEffects(ConditionReads(inst.condition), {}, {}, true);
    if inst.condition == 15 then conditionOnly
    else
      match UnconditionalEffects(inst)
      case Exposed => conditionOnly
      case Crossable(read, possible, guaranteed) =>
        FlagEffects(conditionOnly.read + read, possible,
                    if inst.condition != 14 then {} else guaranteed, false)
  }

  datatype BodyEffects = Exposed | Crossable(read: set<Flag>, possible: set<Flag>, guaranteed: set<Flag>)

  /** Effects of the executed body, or Exposed where the instruction is a boundary. */
  function UnconditionalEffects(inst: Instruction): BodyEffects {
    match inst.kind
    case DataProcessing =>
      if !IsTest(inst.opcode) && inst.rd == 15 then Exposed
      else
        var arithmetic := 2 <= inst.opcode <= 7 || inst.opcode == 10 || inst.opcode == 11;
        var read: set<Flag> :=
          if 5 <= inst.opcode <= 7 ||
             (!inst.immediateOperand && !inst.registerShift &&
              inst.shift == Ror && inst.shiftAmount == 0)
          then {C} else {};
        if !inst.setFlags then Crossable(read, {}, {})
        else if arithmetic then Crossable(read, ALL_FLAGS, ALL_FLAGS)
        else
          var carryChanges :=
            if inst.immediateOperand then inst.shiftAmount != 0
            else inst.registerShift || inst.shift != Lsl || inst.shiftAmount != 0;
          Crossable(read, {N, Z} + (if carryChanges then {C} else {}),
               {N, Z} + (if carryChanges && !inst.registerShift then {C} else {}))
    case Multiply =>
      var nz := if inst.setFlags then {N, Z} else {};
      Crossable({}, nz, nz)
    case FloatingSystem(toCore, core) =>
      var written := if toCore && core == 15 then ALL_FLAGS else {};
      Crossable({}, written, written)
    case SystemControl(programStatus) =>
      if !programStatus || (!inst.load && inst.opcode / 2 % 2 == 1) then Exposed
      else if inst.load then Crossable(ALL_FLAGS, {}, {})
      else
        var written := if inst.opcode / 8 % 2 == 1 then ALL_FLAGS else {};
        Crossable({}, written, written)
    case IfThen => Crossable({}, {}, {})
    case Nop => Crossable({}, {}, {})
    case WideImmediate => Crossable({}, {}, {})
    case PackHalfword => Crossable({}, {}, {})
    case IntegerTransform => Crossable({}, {}, {})
    case IntegerDivide => Crossable({}, {}, {})
    case ParallelSaturating => Crossable({}, {}, {})
    case ParallelArithmetic => Crossable({}, {}, {})
    case SaturatingArithmetic => Crossable({}, {}, {})
    case VectorDuplicate(_, _) => Crossable({}, {}, {})
    case VectorIntegerArithmetic => Crossable({}, {}, {})
    case VectorBitwise => Crossable({}, {}, {})
    case VectorShiftImmediate => Crossable({}, {}, {})
    case VectorReverse => Crossable({}, {}, {})
    case VectorExtract => Crossable({}, {}, {})
    case VectorImmediate => Crossable({}, {}, {})
    case VectorCoreMove(_, _, _, _) => Crossable({}, {}, {})
    case _ => Exposed
  }
}
