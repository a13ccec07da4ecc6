/** Which registers may be kept as page pointers or entry-relative offsets.

A register is admitted only if no observed instruction names it outside the two
forms the pointer lowering handles itself: a bounded add or subtract to the
register, and a vector transfer that uses it as its base.
 */
module AddressRegisterPlan {
  import opened Words
  import opened Isa
  import opened AddressDisplacements

  const CAPACITY: nat := 4
  const ALL_REGISTERS: set<Reg> := {0, 1, 2, 3, 4, 5, 6, 7, 8, 9, 10, 11, 12, 13, 14, 15}

  /** An add or subtract of a small constant or of a scaled other register. */
  predicate IsUpdate(inst: Instruction) {
    && inst.kind.DataProcessing? && inst.condition == 14 && !inst.setFlags && inst.rd == inst.rn
    && inst.rd < 15 && (inst.opcode == 2 || inst.opcode == 4)
    && if inst.immediateOperand then inst.immediate <= 4095
       else !inst.registerShift && inst.shift == Lsl && inst.shiftAmount <= 3 && inst.rm < 15 && inst.rm != inst.rd
  }

  /** A base update small enough for one immediate, or none at all. */
  predicate SmallWriteback(inst: Instruction) {
    inst.writeback ==> WritebackChange(inst).Some? && -4095 <= WritebackChange(inst).value.delta <= 4095
  }

  datatype Rules = Rules(forbidden: set<Reg>, variable: set<Reg>) {
    predicate Permits(reg: Reg) {
      reg !in forbidden
    }

    predicate PermitsConstantOffsets(reg: Reg) {
      Permits(reg) && reg !in variable
    }
  }

  const NO_RULES: Rules := Rules({}, {})

  /** The registers one instruction forbids. */
  function Forbidden(inst: Instruction, addressable: bool): set<Reg> {
    match inst.kind
    case DataProcessing =>
      if IsUpdate(inst) then (if inst.immediateOperand then {} else {inst.rm})
      else
        WrittenRegisters(inst) + (if inst.opcode != 13 && inst.opcode != 15 then {inst.rn} else {}) +
        (if inst.immediateOperand then {} else {inst.rm} + (if inst.registerShift then {inst.rs} else {}))
    case VectorTransfer(scalarMultiple, _, _, _) =>
      (if !addressable || inst.condition != 14 || !SmallWriteback(inst) then {inst.rn} else {}) +
      (if !scalarMultiple && inst.rm != 13 && inst.rm != 15 then {inst.rm} else {})
    case VectorDuplicate(coreSource, source) => if coreSource then {source} else {}
    case VectorCoreMove(_, core, core2, pair) => {core} + (if pair then {core2} else {})
    case FloatingSystem(_, core) => {core}
    case Branch => if inst.link then {14} else {}
    case FloatingArithmetic => {}
    case FloatingComparison => {}
    case FloatingConversion => {}
    case FloatingImmediate => {}
    case VectorFloatingConversion => {}
    case VectorFloatingArithmetic => {}
    case VectorIntegerArithmetic => {}
    case VectorBitwise => {}
    case VectorShiftImmediate => {}
    case VectorReverse => {}
    case VectorExtract => {}
    case VectorImmediate => {}
    case Nop => {}
    case IfThen => {}
    case _ => ALL_REGISTERS
  }

  function Restricted(r: Rules, inst: Instruction, addressable: bool): Rules {
    Rules(r.forbidden + Forbidden(inst, addressable),
          r.variable + (if IsUpdate(inst) && !inst.immediateOperand then {inst.rd} else {}))
  }

  datatype Step = Step(inst: Instruction, addressable: bool)

  function RestrictedAll(r: Rules, p: seq<Step>): Rules
    decreases |p|
  {
    if p == [] then r else RestrictedAll(Restricted(r, p[0].inst, p[0].addressable), p[1..])
  }

  /** Core registers the body of an instruction names, as its encoding defines
      them (DDI 0406, A8); families outside the vector and data-processing ones
      are taken to name every register. */
  function Operands(inst: Instruction): set<Reg> {
    match inst.kind
    case DataProcessing =>
      (if IsTest(inst.opcode) then {} else {inst.rd}) +
      (if inst.opcode == 13 || inst.opcode == 15 then {} else {inst.rn}) +
      (if inst.immediateOperand then {} else {inst.rm}) +
      (if !inst.immediateOperand && inst.registerShift then {inst.rs} else {})
    case VectorTransfer(scalarMultiple, _, _, _) =>
      {inst.rn} + (if !scalarMultiple && inst.rm != 13 && inst.rm != 15 then {inst.rm} else {})
    case VectorDuplicate(coreSource, source) => if coreSource then {source} else {}
    case VectorCoreMove(_, core, core2, pair) => if pair then {core, core2} else {core}
    case FloatingSystem(_, core) => {core}
    case Branch => if inst.link then {14} else {}
    case FloatingArithmetic => {}
    case FloatingComparison => {}
    case FloatingConversion => {}
    case FloatingImmediate => {}
    case VectorFloatingConversion => {}
    case VectorFloatingArithmetic => {}
    case VectorIntegerArithmetic => {}
    case VectorBitwise => {}
    case VectorShiftImmediate => {}
    case VectorReverse => {}
    case VectorExtract => {}
    case VectorImmediate => {}
    case Nop => {}
    case IfThen => {}
    case _ => ALL_REGISTERS
  }

  lemma AllRegisters(r: Reg)
    ensures r in ALL_REGISTERS
  {
  }

  /** A vector transfer whose register operand moves the base afterwards. */
  predicate IndexesBy(inst: Instruction) {
    inst.kind.VectorTransfer? && !inst.kind.scalarMultiple && inst.rm != 13 && inst.rm != 15
  }

  /** The only ways an admitted register is named. */
  predicate Handled(s: Step, reg: Reg) {
    || (IsUpdate(s.inst) && s.inst.rd == reg && (s.inst.immediateOperand || s.inst.rm != reg))
    || (s.inst.kind.VectorTransfer? && s.inst.rn == reg && s.addressable && s.inst.condition == 14 && SmallWriteback(s.inst) &&
        !(IndexesBy(s.inst) && s.inst.rm == reg))
  }

  lemma OneAdmitted(s: Step, reg: Reg)
    requires reg !in Forbidden(s.inst, s.addressable) && reg in Operands(s.inst)
    ensures Handled(s, reg)
  {
    AllRegisters(reg);
  }

  lemma {:induction false} RulesGrow(r: Rules, p: seq<Step>)
    ensures r.forbidden <= RestrictedAll(r, p).forbidden && r.variable <= RestrictedAll(r, p).variable
    decreases |p|
  {
    hide Forbidden, IsUpdate;
    if p != [] {
      RulesGrow(Restricted(r, p[0].inst, p[0].addressable), p[1..]);
    }
  }

  /** No observed instruction names an admitted register directly: it updates it
      in a form the pointer lowering handles, or addresses through it. A register
      admitted for constant offsets is never moved by another register. */
  lemma {:induction false} AdmittedNeverRead(r: Rules, p: seq<Step>, i: nat, reg: Reg)
    requires i < |p| && RestrictedAll(r, p).Permits(reg)
    ensures reg in Operands(p[i].inst) ==> Handled(p[i], reg)
    ensures RestrictedAll(r, p).PermitsConstantOffsets(reg) && IsUpdate(p[i].inst) && p[i].inst.rd == reg ==>
              p[i].inst.immediateOperand
    decreases |p|
  {
    hide Forbidden, IsUpdate, Handled, Operands;
    var next := Restricted(r, p[0].inst, p[0].addressable);
    RulesGrow(next, p[1..]);
    if i == 0 {
      if reg in Operands(p[0].inst) {
        OneAdmitted(p[0], reg);
      }
    } else {
      AdmittedNeverRead(next, p[1..], i - 1, reg);
    }
  }

  class Builder {
    var forbidden: set<Reg>
    var variable: set<Reg>

    constructor ()
      ensures State() == NO_RULES
    {
      forbidden, variable := {}, {};
    }

    function State(): Rules
      reads this
    {
      Rules(forbidden, variable)
    }

    method Observe(inst: Instruction, addressable: bool)
      modifies this
      ensures State() == Restricted(old(State()), inst, addressable)
    {
      hide WrittenRegisters, WritebackChange;
      if inst.kind.DataProcessing? && IsUpdate(inst) {
        if !inst.immediateOperand {
          Forbid({inst.rm});
          variable := variable + {inst.rd};
        }
        return;
      }
      Forbid(Forbidden(inst, addressable));
    }

    method Forbid(regs: set<Reg>)
      modifies `forbidden
      ensures forbidden == old(forbidden) + regs
    {
      var rest := regs;
      while rest != {}
        invariant rest <= regs && forbidden == old(forbidden) + (regs - rest)
        decreases |rest|
      {
        var r :| r in rest;
        forbidden := forbidden + {r};
        rest := rest - {r};
      }
    }
  }
}
