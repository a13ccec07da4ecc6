/** Register-only guest execution: the meaning liveness is measured against. */
module GuestMachine {
  import opened Words
  import opened Isa
  import opened IntegerSemantics

  /** Architectural state: r0..r15, NZCV, and the rest of the thread state
      (Q, GE, IT, FPSCR and the extension registers) as one opaque value. */
  datatype State = State(regs: seq<Word>, flags: Flags, rest: int) {
    predicate Valid() {
      |regs| == 16
    }
  }

  datatype Outcome = Outcome(regs: seq<Word>, rest: int)

  /** The families whose data results are not modelled here. None of them is
      given NZCV; a boundary sees the whole state, including NZCV. */
  datatype Families = Families(
    operand: (Instruction, Reg, seq<Word>) -> Word,
    data: (Instruction, seq<Word>, int) -> Outcome,
    multiplyNz: (Instruction, seq<Word>) -> (bool, bool),
    comparisonFlags: int -> Flags,
    programStatus: (Flags, int) -> Word,
    boundary: (Instruction, State) -> State)

  function FlagsOfWord(w: Word): Flags {
    Flags(w / 0x8000_0000 % 2 == 1, w / 0x4000_0000 % 2 == 1,
          w / 0x2000_0000 % 2 == 1, w / 0x1000_0000 % 2 == 1)
  }

  function SetRegister(regs: seq<Word>, r: Reg, value: Word): seq<Word> {
    if r < |regs| then regs[r := value] else regs
  }

  function Register(regs: seq<Word>, r: Reg): Word {
    if r < |regs| then regs[r] else 0
  }

  /** The data result never depends on whether flags are written. */
  function Body(inst: Instruction): Instruction {
    inst.(setFlags := false)
  }

  function DataProcess(f: Families, inst: Instruction, s: State): State {
    var rm := f.operand(Body(inst), inst.rm, s.regs);
    var rs := Register(s.regs, inst.rs);
    var a := f.operand(Body(inst), inst.rn, s.regs);
    var result := CalculateAlu(inst.opcode, inst.setFlags, a, Operand(inst, rm, rs, s.flags.c), s.flags);
    State(if IsTest(inst.opcode) then s.regs else SetRegister(s.regs, inst.rd, result.value),
          result.flags, s.rest)
  }

  /** The body of an instruction whose condition passed. */
  function Execute(f: Families, inst: Instruction, s: State): State {
    if EffectsOf(inst).boundary then f.boundary(inst, s)
    else if inst.kind.DataProcessing? then DataProcess(f, inst, s)
    else if inst.kind.SystemControl? && inst.load then
      s.(regs := SetRegister(s.regs, inst.rd, f.programStatus(s.flags, s.rest)))
    else
      var out := f.data(Body(inst), s.regs, s.rest);
      var flags :=
        match inst.kind
        case Multiply =>
          if inst.setFlags then
            var (n, z) := f.multiplyNz(inst, s.regs);
            s.flags.(n := n, z := z)
          else s.flags
        case FloatingSystem(toCore, core) =>
          if toCore && core == 15 then f.comparisonFlags(s.rest) else s.flags
        case SystemControl(_) =>
          if inst.opcode / 8 % 2 == 1 then
            FlagsOfWord(if inst.immediateOperand then inst.immediate else Register(s.regs, inst.rd))
          else s.flags
        case _ => s.flags;
      State(out.regs, flags, out.rest)
  }

  /** One instruction; a failed condition only retires it. An unconditional
      encoding (condition 15) is always a boundary. */
  function Step(f: Families, inst: Instruction, s: State): State {
    if inst.condition == 15 then f.boundary(inst, s)
    else if ConditionPassed(inst.condition, s.flags) then Execute(f, inst, s)
    else s
  }

  /** The states agree except, perhaps, in the flags of mask. */
  predicate Agree(s: State, t: State, mask: set<Flag>) {
    && s.regs == t.regs && s.rest == t.rest
    && (N in mask || s.flags.n == t.flags.n)
    && (Z in mask || s.flags.z == t.flags.z)
    && (C in mask || s.flags.c == t.flags.c)
    && (V in mask || s.flags.v == t.flags.v)
  }

  /** A condition that read none of the differing flags decides alike. */
  lemma SkipAgrees(inst: Instruction, s: State, t: State, mask: set<Flag>)
    requires inst.condition < 15 && Agree(s, t, mask)
    requires ConditionReads(inst.condition) * mask == {}
    ensures ConditionPassed(inst.condition, s.flags) == ConditionPassed(inst.condition, t.flags)
  {
    var read := ConditionReads(inst.condition);
    assert forall f: Flag :: f in read ==> f !in mask by {
      forall f | f in read
        ensures f !in mask
      {
        assert f in mask ==> f in read * mask;
      }
    }
    assert inst.condition == 0 || inst.condition == 1 ==> Z in read;
    assert inst.condition == 2 || inst.condition == 3 ==> C in read;
    assert inst.condition == 4 || inst.condition == 5 ==> N in read;
    assert inst.condition == 6 || inst.condition == 7 ==> V in read;
    assert inst.condition == 8 || inst.condition == 9 ==> C in read && Z in read;
    assert inst.condition == 10 || inst.condition == 11 ==> N in read && V in read;
    assert inst.condition == 12 || inst.condition == 13 ==> N in read && V in read && Z in read;
  }

  /** Two evaluations on equal operands, and equal carries where they add one in. */
  lemma AluAgrees(opcode: nat, sets: bool, a: Word, left: ShiftResult, right: ShiftResult, f: Flags, g: Flags)
    requires left.value == right.value && (5 <= opcode <= 7 ==> f.c == g.c)
    ensures var x, y := CalculateAlu(opcode, sets, a, left, f), CalculateAlu(opcode, sets, a, right, g);
            && x.value == y.value
            && if !sets then x.flags == f && y.flags == g
               else if IsLogical(opcode) then
                 x.flags.n == y.flags.n && x.flags.z == y.flags.z && x.flags.c == left.carry && y.flags.c == right.carry &&
                 x.flags.v == f.v && y.flags.v == g.v
               else x.flags == y.flags
  {
    hide AddWithCarry, LogicalValue, TopBit;
  }

  /** The operands of two data-processing bodies whose read flags agree. */
  lemma OperandsAgree(inst: Instruction, rm: Word, rs: Word, s: State, t: State, mask: set<Flag>)
    requires inst.kind.DataProcessing? && UnconditionalEffects(inst).Crossable? && Agree(s, t, mask)
    requires UnconditionalEffects(inst).read !! mask
    ensures var left, right := Operand(inst, rm, rs, s.flags.c), Operand(inst, rm, rs, t.flags.c);
            && left.value == right.value && (5 <= inst.opcode <= 7 ==> s.flags.c == t.flags.c)
            && (C !in mask ==> left.carry == right.carry)
            && (inst.setFlags && IsLogical(inst.opcode) && C in UnconditionalEffects(inst).guaranteed ==>
                  left.carry == right.carry)
  {
    hide Shift, Operand;
    ShiftCarryUse(inst, rm, rs, s.flags.c, t.flags.c);
    if C in mask {
      assert C !in UnconditionalEffects(inst).read;
    } else {
      assert s.flags.c == t.flags.c;
    }
  }

  /** Which flags a body surely writes. */
  lemma GuaranteedFlags(inst: Instruction)
    requires inst.kind.DataProcessing? && UnconditionalEffects(inst).Crossable?
    ensures !inst.setFlags ==> UnconditionalEffects(inst).guaranteed == {}
    ensures inst.setFlags && IsLogical(inst.opcode) ==> V !in UnconditionalEffects(inst).guaranteed
  {
  }

  /** Two data-processing bodies that see the same carry where they use it. */
  lemma DataProcessSound(f: Families, inst: Instruction, s: State, t: State, mask: set<Flag>)
    requires inst.kind.DataProcessing? && UnconditionalEffects(inst).Crossable? && Agree(s, t, mask)
    requires UnconditionalEffects(inst).read !! mask
    ensures Agree(DataProcess(f, inst, s), DataProcess(f, inst, t), mask - UnconditionalEffects(inst).guaranteed)
  {
    hide SetRegister, Register, Operand, Body, CalculateAlu, UnconditionalEffects, IsLogical;
    var rm, rs, a := f.operand(Body(inst), inst.rm, s.regs), Register(s.regs, inst.rs), f.operand(Body(inst), inst.rn, s.regs);
    OperandsAgree(inst, rm, rs, s, t, mask);
    GuaranteedFlags(inst);
    AluAgrees(inst.opcode, inst.setFlags, a, Operand(inst, rm, rs, s.flags.c), Operand(inst, rm, rs, t.flags.c), s.flags, t.flags);
  }

  lemma DataProcessKeeps(f: Families, inst: Instruction, s: State)
    requires inst.kind.DataProcessing? && UnconditionalEffects(inst).Crossable?
    ensures forall x: Flag :: x !in UnconditionalEffects(inst).possible ==>
              DataProcess(f, inst, s).flags.Get(x) == s.flags.Get(x)
  {
    hide Shift, AddWithCarry, LogicalValue, SetRegister, Register;
    ShiftCarryUse(inst, f.operand(Body(inst), inst.rm, s.regs), Register(s.regs, inst.rs), s.flags.c, s.flags.c);
  }

  /** Which part of a shifter result can depend on the incoming carry. */
  lemma ShiftCarryUse(inst: Instruction, rm: Word, rs: Word, c: bool, d: bool)
    ensures inst.immediateOperand || inst.registerShift || inst.shift != Ror || inst.shiftAmount != 0 ==>
              Operand(inst, rm, rs, c).value == Operand(inst, rm, rs, d).value
    ensures (inst.immediateOperand && inst.shiftAmount != 0)
            || (!inst.immediateOperand && !inst.registerShift && (inst.shift != Lsl || inst.shiftAmount != 0)) ==>
              Operand(inst, rm, rs, c).carry == Operand(inst, rm, rs, d).carry
    ensures (inst.immediateOperand && inst.shiftAmount == 0)
            || (!inst.immediateOperand && !inst.registerShift && inst.shift == Lsl && inst.shiftAmount == 0) ==>
              Operand(inst, rm, rs, c).carry == c
    ensures Operand(inst, rm, rs, c).carry == Operand(inst, rm, rs, d).carry ||
            (Operand(inst, rm, rs, c).carry == c && Operand(inst, rm, rs, d).carry == d)
  {
    hide BitSet, ShiftLeft, ShiftRight, ArithmeticRight, RotateRight, TopBit;
  }

  lemma ExecuteSound(f: Families, inst: Instruction, s: State, t: State, mask: set<Flag>)
    requires inst.condition != 15 && UnconditionalEffects(inst).Crossable? && Agree(s, t, mask)
    requires UnconditionalEffects(inst).read !! mask
    ensures Agree(Execute(f, inst, s), Execute(f, inst, t), mask - UnconditionalEffects(inst).guaranteed)
    ensures forall x: Flag :: x !in UnconditionalEffects(inst).possible ==>
              Execute(f, inst, s).flags.Get(x) == s.flags.Get(x)
  {
    hide DataProcess, SetRegister, Register, FlagsOfWord;
    if inst.kind.DataProcessing? {
      DataProcessSound(f, inst, s, t, mask);
      DataProcessKeeps(f, inst, s);
      hide UnconditionalEffects, Agree;
    } else if inst.kind.SystemControl? {
      SystemSound(f, inst, s, t, mask);
      hide UnconditionalEffects, Agree;
    } else {
      FamilySound(f, inst, s, t, mask);
      hide UnconditionalEffects, Agree;
    }
  }

  lemma SystemSound(f: Families, inst: Instruction, s: State, t: State, mask: set<Flag>)
    requires inst.kind.SystemControl? && UnconditionalEffects(inst).Crossable? && Agree(s, t, mask)
    requires UnconditionalEffects(inst).read !! mask && !EffectsOf(inst).boundary
    ensures Agree(Execute(f, inst, s), Execute(f, inst, t), mask - UnconditionalEffects(inst).guaranteed)
    ensures forall x: Flag :: x !in UnconditionalEffects(inst).possible ==>
              Execute(f, inst, s).flags.Get(x) == s.flags.Get(x)
  {
    hide SetRegister, FlagsOfWord, EffectsOf;
    if inst.load {
      assert {N, Z, C, V} !! mask;
      assert s.flags == t.flags by {
        assert N in {N, Z, C, V} && Z in {N, Z, C, V} && C in {N, Z, C, V} && V in {N, Z, C, V};
      }
    }
  }

  lemma FamilySound(f: Families, inst: Instruction, s: State, t: State, mask: set<Flag>)
    requires !inst.kind.SystemControl? && !inst.kind.DataProcessing?
    requires UnconditionalEffects(inst).Crossable? && Agree(s, t, mask)
    requires UnconditionalEffects(inst).read !! mask && !EffectsOf(inst).boundary
    ensures Agree(Execute(f, inst, s), Execute(f, inst, t), mask - UnconditionalEffects(inst).guaranteed)
    ensures forall x: Flag :: x !in UnconditionalEffects(inst).possible ==>
              Execute(f, inst, s).flags.Get(x) == s.flags.Get(x)
  {
    hide EffectsOf;
  }

  /** Soundness of the read, possible-write and guaranteed-write sets: flags the
      instruction does not read cannot change anything else, those it surely
      writes stop differing, and those outside the possible set are kept. */
  lemma EffectsSound(f: Families, inst: Instruction, s: State, t: State, mask: set<Flag>)
    requires !EffectsOf(inst).boundary && EffectsOf(inst).read * mask == {} && Agree(s, t, mask)
    ensures inst.condition < 15 ==>
              ConditionPassed(inst.condition, s.flags) == ConditionPassed(inst.condition, t.flags)
    ensures Agree(Step(f, inst, s), Step(f, inst, t), mask - EffectsOf(inst).guaranteedWrite)
    ensures forall x: Flag :: x !in EffectsOf(inst).possibleWrite ==>
              Step(f, inst, s).flags.Get(x) == s.flags.Get(x)
  {
    var effects := EffectsOf(inst);
    assert ConditionReads(inst.condition) <= effects.read;
    assert forall x: Flag :: x in effects.read ==> x !in mask by {
      forall x | x in effects.read
        ensures x !in mask
      {
        assert x in mask ==> x in effects.read * mask;
      }
    }
    if inst.condition < 15 {
      assert ConditionReads(inst.condition) * mask == {};
      SkipAgrees(inst, s, t, mask);
      if ConditionPassed(inst.condition, s.flags) {
        ExecuteSound(f, inst, s, t, mask);
      }
    }
  }
}
