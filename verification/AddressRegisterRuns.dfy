/** Guest code over registers some of which are held as pointers or offsets.

The emitted code reads a host register directly except where the lowering knows
its form. Under a plan that the builder's rules admit, it never reads a form by
mistake, never meets an update it cannot express, and computes what the guest
computes.
 */
module AddressRegisterRuns {
  import opened Words
  import opened Wrappers
  import opened Isa
  import opened IntegerSemantics
  import opened AddressDisplacements
  import opened AddressRegisterPlan
  import opened AddressRegisters
  import opened AddressRegisterScopes

  /** Everything outside core registers and NZCV is one opaque value. These say
      what it does with the core values given to it, and what it gives back. */
  datatype Families = Families(
    data: (Instruction, seq<Word>, Flags, int) -> int,
    core: (Instruction, nat, Flags, int) -> Word,
    status: (Instruction, Flags, int) -> Flags,
    other: (Instruction, seq<Word>, Flags, int, nat) -> Word)

  /** What one executed instruction writes. */
  datatype Outcome = Outcome(writes: map<Reg, Word>, flags: Flags, rest: int)

  /** The base after a vector transfer with writeback. */
  function BaseAfter(inst: Instruction, base: Word, index: Word): Word {
    var change := WritebackChange(inst);
    Wrap(base + if change.Some? then change.value.delta else index)
  }

  /** A vector transfer at this base, moved afterwards by this index register. */
  function Transferred(f: Families, inst: Instruction, base: Word, index: Word, flags: Flags, rest: int): Outcome {
    Outcome(if inst.writeback then map[inst.rn := BaseAfter(inst, base, index)] else map[], flags,
            f.data(inst, [base], flags, rest))
  }

  /** The body of an executed instruction, over the core registers its encoding
      names (DDI 0406, A8): arithmetic is the portable one, vector and system
      instructions exchange the named values with the opaque state, and any other
      family may read and write every register. */
  function Effect(f: Families, inst: Instruction, regs: seq<Word>, flags: Flags, rest: int): Outcome
    requires |regs| == 16
  {
    match inst.kind
    case DataProcessing =>
      var result := CalculateAlu(inst.opcode, inst.setFlags, regs[inst.rn],
                                 Operand(inst, regs[inst.rm], regs[inst.rs], flags.c), flags);
      Outcome(if IsTest(inst.opcode) then map[] else map[inst.rd := result.value], result.flags, rest)
    case VectorTransfer(_, _, _, _) =>
      Transferred(f, inst, regs[inst.rn], if IndexesBy(inst) then regs[inst.rm] else 0, flags, rest)
    case VectorDuplicate(coreSource, source) =>
      Outcome(map[], flags, f.data(inst, if coreSource then [regs[source]] else [], flags, rest))
    case VectorCoreMove(toCore, core, core2, pair) =>
      if !toCore then
        Outcome(map[], flags, f.data(inst, [regs[core]] + (if pair then [regs[core2]] else []), flags, rest))
      else if pair then
        Outcome(map[core := f.core(inst, 0, flags, rest)][core2 := f.core(inst, 1, flags, rest)], flags, rest)
      else Outcome(map[core := f.core(inst, 0, flags, rest)], flags, rest)
    case FloatingSystem(toCore, core) =>
      if !toCore then Outcome(map[], flags, f.data(inst, [regs[core]], flags, rest))
      else if core == 15 then Outcome(map[], f.status(inst, flags, rest), rest)
      else Outcome(map[core := f.core(inst, 0, flags, rest)], flags, rest)
    case Branch => Outcome(if inst.link then map[14 := f.core(inst, 0, flags, rest)] else map[], flags, rest)
    case FloatingArithmetic => Vectors(f, inst, flags, rest)
    case FloatingComparison => Vectors(f, inst, flags, rest)
    case FloatingConversion => Vectors(f, inst, flags, rest)
    case FloatingImmediate => Vectors(f, inst, flags, rest)
    case VectorFloatingConversion => Vectors(f, inst, flags, rest)
    case VectorFloatingArithmetic => Vectors(f, inst, flags, rest)
    case VectorIntegerArithmetic => Vectors(f, inst, flags, rest)
    case VectorBitwise => Vectors(f, inst, flags, rest)
    case VectorShiftImmediate => Vectors(f, inst, flags, rest)
    case VectorReverse => Vectors(f, inst, flags, rest)
    case VectorExtract => Vectors(f, inst, flags, rest)
    case VectorImmediate => Vectors(f, inst, flags, rest)
    case Nop => Outcome(map[], flags, rest)
    case IfThen => Outcome(map[], flags, rest)
    case _ =>
      Outcome(map r: Reg | r in ALL_REGISTERS :: f.other(inst, regs, flags, rest, r),
              f.status(inst, flags, f.data(inst, regs, flags, rest)), f.data(inst, regs, flags, rest))
  }

  /** An instruction that touches no core register. */
  function Vectors(f: Families, inst: Instruction, flags: Flags, rest: int): Outcome {
    Outcome(map[], flags, f.data(inst, [], flags, rest))
  }

  /** An instruction's effect depends on the registers it names and on no other,
      and it writes no other. */
  lemma EffectFrame(f: Families, inst: Instruction, regs: seq<Word>, same: seq<Word>, flags: Flags, rest: int)
    requires |regs| == |same| == 16 && forall r <- Operands(inst) :: same[r] == regs[r]
    ensures Effect(f, inst, same, flags, rest) == Effect(f, inst, regs, flags, rest)
    ensures Effect(f, inst, regs, flags, rest).writes.Keys <= Operands(inst)
  {
    hide CalculateAlu, Operand, Shift, WritebackChange, BaseAfter, ALL_REGISTERS;
    if inst.kind.DataProcessing? {
      ArithmeticFrame(f, inst, regs, same, flags, rest);
      hide Effect, Operands;
    } else if Operands(inst) == ALL_REGISTERS {
      forall r: Reg
        ensures same[r] == regs[r]
      {
        AllRegisters(r);
      }
      assert same == regs;
    }
  }

  lemma ArithmeticFrame(f: Families, inst: Instruction, regs: seq<Word>, same: seq<Word>, flags: Flags, rest: int)
    requires inst.kind.DataProcessing? && |regs| == |same| == 16 && forall r <- Operands(inst) :: same[r] == regs[r]
    ensures Effect(f, inst, same, flags, rest) == Effect(f, inst, regs, flags, rest)
    ensures Effect(f, inst, regs, flags, rest).writes.Keys <= Operands(inst)
  {
    hide AddWithCarry, And, Or, Xor, Shift, ALL_REGISTERS;
  }

  /** The host: register forms, and flags and state outside core registers. */
  datatype Machine = Machine(s: State, flags: Flags, rest: int)

  datatype Guest = Guest(regs: seq<Word>, flags: Flags, rest: int)

  /** Host registers as the W registers that ordinary lowerings read. */
  function Direct(s: State): (w: seq<Word>)
    requires s.Valid()
    ensures |w| == 16 && forall r: Reg :: w[r] == Wrap(s.x[r])
  {
    seq(16, r requires 0 <= r < 16 => Wrap(s.x[r]))
  }

  /** The emitted code of an ordinary instruction: it knows nothing of forms. */
  function Ordinary(f: Families, m: Machine, inst: Instruction): (n: Machine)
    requires m.s.Valid()
    ensures n.s.Valid()
  {
    var out := Effect(f, inst, Direct(m.s), m.flags, m.rest);
    Machine(Others(m.s, out.writes), out.flags, out.rest)
  }

  /** The emitted code of a vector transfer: the base is read in its form, the
      index register directly, and the base is moved in its form. */
  function Transfer(f: Families, m: Machine, inst: Instruction): Option<Machine>
    requires m.s.Valid()
  {
    var out := Transferred(f, inst, ReadGuest(m.s, inst.rn), if IndexesBy(inst) then Direct(m.s)[inst.rm] else 0,
                           m.flags, m.rest);
    if !inst.writeback then Some(Machine(m.s, out.flags, out.rest))
    else
      match WritebackForm(m.s, inst)
      case Invalid => None
      case Done(t) => Some(Machine(t, out.flags, out.rest))
      case Unhandled => Some(Machine(Others(m.s, out.writes), out.flags, out.rest))
  }

  /** One emitted instruction; None where the lowering would throw. */
  function Executed(f: Families, m: Machine, inst: Instruction): Option<Machine>
    requires m.s.Valid()
  {
    if !ConditionPassed(inst.condition, m.flags) then Some(m)
    else
      match inst.kind
      case DataProcessing =>
        (match UpdateForm(m.s, inst)
         case Invalid => None
         case Done(t) => Some(m.(s := t))
         case Unhandled => Some(Ordinary(f, m, inst)))
      case VectorTransfer(_, _, _, _) => Transfer(f, m, inst)
      case _ => Some(Ordinary(f, m, inst))
  }

  /** The same instruction on the plain registers. */
  function Plain(f: Families, g: Guest, inst: Instruction): (h: Guest)
    requires |g.regs| == 16
    ensures |h.regs| == 16
  {
    if !ConditionPassed(inst.condition, g.flags) then g
    else
      var out := Effect(f, inst, g.regs, g.flags, g.rest);
      Guest(Overwritten(g.regs, out.writes), out.flags, out.rest)
  }

  /** The host stands for the guest. */
  ghost predicate Represents(m: Machine, g: Guest) {
    m.s.Valid() && Denotes(m.s, g.regs) && m.flags == g.flags && m.rest == g.rest
  }

  /** The emitted instruction is the observed one, perhaps with dead flags dropped. */
  predicate Lowers(inst: Instruction, observed: Instruction) {
    inst == observed || inst == observed.(setFlags := false)
  }

  /** A builder whose rules still permit the register has observed the instruction. */
  ghost predicate Permitted(inst: Instruction, reg: Reg, constant: bool) {
    exists p: seq<Step>, i: nat :: PermittedBy(p, i, inst, reg, constant)
  }

  ghost predicate PermittedBy(p: seq<Step>, i: nat, inst: Instruction, reg: Reg, constant: bool) {
    && i < |p| && Lowers(inst, p[i].inst)
    && if constant then RestrictedAll(NO_RULES, p).PermitsConstantOffsets(reg) else RestrictedAll(NO_RULES, p).Permits(reg)
  }

  /** What permission means for the emitted instruction. */
  lemma PermittedHandled(inst: Instruction, reg: Reg, constant: bool)
    requires Permitted(inst, reg, constant)
    ensures reg in Operands(inst) ==> Handled(Step(inst, true), reg)
    ensures constant && IsUpdate(inst) && inst.rd == reg ==> inst.immediateOperand
  {
    hide RestrictedAll, Operands, Handled, IsUpdate;
    var p: seq<Step>, i: nat :| PermittedBy(p, i, inst, reg, constant);
    AdmittedNeverRead(NO_RULES, p, i, reg);
    LoweredHandled(inst, p[i], reg);
  }

  /** Only instructions that keep their flag write handle an admitted register. */
  lemma LoweredHandled(inst: Instruction, s: Step, reg: Reg)
    requires Lowers(inst, s.inst) && (reg in Operands(s.inst) ==> Handled(s, reg))
    ensures reg in Operands(inst) ==> Handled(Step(inst, true), reg)
    ensures IsUpdate(inst) && inst.rd == reg ==> IsUpdate(s.inst) && inst == s.inst
  {
    if IsUpdate(inst) && inst.rd == reg {
      assert reg in Operands(s.inst);
    }
  }

  /** Every register in either form may be in it here. */
  ghost predicate Admitted(s: State, inst: Instruction)
    requires s.Valid()
  {
    forall r: Reg :: r in s.active || r in s.plan.deferred ==> Permitted(inst, r, r in s.plan.deferred)
  }

  /** Registers an ordinary lowering names are in neither form. */
  lemma OrdinaryExact(f: Families, m: Machine, g: Guest, inst: Instruction)
    requires Represents(m, g)
    requires forall r <- Operands(inst) :: r !in m.s.active && r !in m.s.plan.deferred
    ensures var out := Effect(f, inst, g.regs, g.flags, g.rest);
            Represents(Ordinary(f, m, inst), Guest(Overwritten(g.regs, out.writes), out.flags, out.rest))
  {
    hide Effect, Others;
    forall r | r in Operands(inst)
      ensures Direct(m.s)[r] == g.regs[r]
    {
      assert Denoted(m.s, r) == g.regs[r];
    }
    EffectFrame(f, inst, g.regs, Direct(m.s), g.flags, g.rest);
    OthersDenote(m.s, Effect(f, inst, g.regs, g.flags, g.rest).writes, g.regs);
  }

  /** An admitted data-processing instruction is ordinary or a handled update. */
  lemma ArithmeticExact(f: Families, m: Machine, g: Guest, inst: Instruction)
    requires Represents(m, g) && Admitted(m.s, inst) && inst.kind.DataProcessing? && ConditionPassed(inst.condition, g.flags)
    ensures Executed(f, m, inst).Some? && Represents(Executed(f, m, inst).value, Plain(f, g, inst))
  {
    hide Effect, Others, Permitted, CalculateAlu, Operand, WritebackChange;
    forall r: Reg | r in m.s.active || r in m.s.plan.deferred
      ensures r in Operands(inst) ==> IsUpdate(inst) && inst.rd == r && (r in m.s.plan.deferred ==> inst.immediateOperand)
    {
      PermittedHandled(inst, r, r in m.s.plan.deferred);
    }
    assert !IsTest(inst.opcode) ==> inst.rd in Operands(inst);
    match UpdateForm(m.s, inst)
    case Unhandled =>
      OrdinaryExact(f, m, g, inst);
    case Done(t) =>
      UpdateDenotes(m.s, inst, g.regs, g.flags);
      UpdateIs(f, g, inst);
    case Invalid =>
      assert false;
  }

  lemma UpdateIs(f: Families, g: Guest, inst: Instruction)
    requires |g.regs| == 16 && IsUpdate(inst)
    ensures var operand := Operand(inst, g.regs[inst.rm], g.regs[inst.rs], g.flags.c);
            var result := CalculateAlu(inst.opcode, inst.setFlags, g.regs[inst.rd], operand, g.flags);
            Plain(f, g, inst) == Guest(g.regs[inst.rd := result.value], result.flags, g.rest)
  {
    hide CalculateAlu, Operand;
  }

  /** An admitted vector transfer reads and moves its base in whatever form it has. */
  lemma TransferExact(f: Families, m: Machine, g: Guest, inst: Instruction)
    requires Represents(m, g) && Admitted(m.s, inst) && inst.kind.VectorTransfer? && ConditionPassed(inst.condition, g.flags)
    ensures Executed(f, m, inst).Some? && Represents(Executed(f, m, inst).value, Plain(f, g, inst))
  {
    hide Others, Permitted, WritebackChange, ReadGuest, WritebackForm, BaseAfter, CalculateAlu, Operand, Admitted,
         Denotes, Direct, IndexesBy;
    TransferReads(m, g, inst);
    var out := Effect(f, inst, g.regs, g.flags, g.rest);
    if inst.writeback {
      var index := if IndexesBy(inst) then g.regs[inst.rm] else 0;
      TransferMoves(m, g, inst, index);
    } else {
      NoneOverwritten(g.regs);
      NoWrites(f, inst, g);
    }
  }

  /** The base is read in its form and the index is in none. */
  lemma TransferReads(m: Machine, g: Guest, inst: Instruction)
    requires Represents(m, g) && Admitted(m.s, inst) && inst.kind.VectorTransfer?
    ensures |g.regs| == 16 && ReadGuest(m.s, inst.rn) == g.regs[inst.rn]
    ensures IndexesBy(inst) ==> Direct(m.s)[inst.rm] == g.regs[inst.rm]
  {
    hide Admitted, WritebackChange, ReadGuest;
    ReadGuestExact(m.s, inst.rn, g.regs);
    if IndexesBy(inst) {
      IndexPlain(m.s, inst);
      assert Denoted(m.s, inst.rm) == g.regs[inst.rm];
    }
  }

  lemma IndexPlain(s: State, inst: Instruction)
    requires s.Valid() && Admitted(s, inst) && IndexesBy(inst)
    ensures inst.rm !in s.active && inst.rm !in s.plan.deferred
  {
    hide Permitted, WritebackChange, State.Valid;
    if inst.rm in s.active || inst.rm in s.plan.deferred {
      assert inst.rm in Operands(inst);
      PermittedHandled(inst, inst.rm, inst.rm in s.plan.deferred);
      assert false;
    }
  }

  lemma NoWrites(f: Families, inst: Instruction, g: Guest)
    requires |g.regs| == 16 && inst.kind.VectorTransfer? && !inst.writeback
    ensures Effect(f, inst, g.regs, g.flags, g.rest).writes == map[]
  {
  }

  /** The base is moved in its form, by the amount the guest moves it. */
  lemma TransferMoves(m: Machine, g: Guest, inst: Instruction, index: Word)
    requires Represents(m, g) && Admitted(m.s, inst) && inst.kind.VectorTransfer? && inst.writeback
    ensures |g.regs| == 16
    ensures var writes := map[inst.rn := BaseAfter(inst, g.regs[inst.rn], index)];
            match WritebackForm(m.s, inst)
            case Invalid => false
            case Done(t) => t.Valid() && Denotes(t, Overwritten(g.regs, writes))
            case Unhandled => Denotes(Others(m.s, writes), Overwritten(g.regs, writes))
  {
    hide Others, Admitted, WritebackChange, WritebackForm, Overwritten, Effect, Denoted;
    var base := inst.rn;
    var writes := map[base := BaseAfter(inst, g.regs[base], index)];
    BaseForm(m.s, inst);
    if base in m.s.active || base in m.s.plan.deferred {
      WritebackDenotes(m.s, inst, g.regs);
      OneOverwritten(g.regs, base, Wrap(g.regs[base] + WritebackChange(inst).value.delta));
    } else {
      OthersDenote(m.s, writes, g.regs);
    }
  }

  /** An admitted write-back is handled when its base is in a form and left to the
      ordinary lowering when it is in none. */
  lemma BaseForm(s: State, inst: Instruction)
    requires s.Valid() && Admitted(s, inst) && inst.kind.VectorTransfer? && inst.writeback
    ensures if inst.rn in s.active || inst.rn in s.plan.deferred then WritebackForm(s, inst).Done?
            else WritebackForm(s, inst).Unhandled?
  {
    hide Permitted, WritebackChange;
    var base := inst.rn;
    if base in s.active || base in s.plan.deferred {
      assert base in Operands(inst);
      PermittedHandled(inst, base, base in s.plan.deferred);
    }
  }

  lemma OneOverwritten(regs: seq<Word>, r: Reg, value: Word)
    requires |regs| == 16
    ensures Overwritten(regs, map[r := value]) == regs[r := value]
  {
  }

  lemma NoneOverwritten(regs: seq<Word>)
    requires |regs| == 16
    ensures Overwritten(regs, map[]) == regs
  {
  }

  /** An admitted instruction never fails to lower, and the host stands for the
      guest afterwards, with the same flags and the same opaque state. */
  lemma ExecutedExact(f: Families, m: Machine, g: Guest, inst: Instruction)
    requires Represents(m, g) && Admitted(m.s, inst)
    ensures Executed(f, m, inst).Some? && Represents(Executed(f, m, inst).value, Plain(f, g, inst))
  {
    hide Effect, Denotes, Others, Permitted, CalculateAlu, Operand, Handled, Ordinary, Transfer, UpdateForm;
    if ConditionPassed(inst.condition, g.flags) {
      if inst.kind.DataProcessing? {
        ArithmeticExact(f, m, g, inst);
      } else if inst.kind.VectorTransfer? {
        TransferExact(f, m, g, inst);
      } else {
        forall r: Reg | r in m.s.active || r in m.s.plan.deferred
          ensures r !in Operands(inst)
        {
          PermittedHandled(inst, r, r in m.s.plan.deferred);
          NeverHandled(inst, r);
        }
        OrdinaryExact(f, m, g, inst);
      }
    }
  }

  lemma NeverHandled(inst: Instruction, r: Reg)
    requires !inst.kind.DataProcessing? && !inst.kind.VectorTransfer?
    ensures !Handled(Step(inst, true), r)
  {
  }

  /** The builders watched every instruction of the body while a base could be in
      a form: for deferred bases that is the whole body. */
  ghost predicate AdmittedPath(plan: Plan, positions: seq<Position>, insts: seq<Instruction>) {
    |insts| <= |positions| && forall n: nat, r: Reg :: n < |insts| && MayHold(plan, positions[n], r) ==>
                                PermittedAt(plan, insts, n, r)
  }

  predicate MayHold(plan: Plan, at: Position, r: Reg) {
    r in plan.bases && (r in at.allowed || r in plan.deferred)
  }

  ghost predicate PermittedAt(plan: Plan, insts: seq<Instruction>, n: nat, r: Reg)
    requires n < |insts|
  {
    Permitted(insts[n], r, r in plan.deferred)
  }

  /** Bases of a repeated cycle that the builder's rules permit after all of it,
      with no bounds on where they may be pointers. */
  lemma CycleAdmits(plan: Plan, positions: seq<Position>, cycle: seq<Step>, insts: seq<Instruction>)
    requires cycle != [] && |insts| <= |positions|
    requires forall n: nat :: n < |insts| ==> Lowers(insts[n], cycle[n % |cycle|].inst)
    requires forall r <- plan.bases :: RestrictedAll(NO_RULES, cycle).Permits(r)
    requires forall r <- plan.deferred :: RestrictedAll(NO_RULES, cycle).PermitsConstantOffsets(r)
    ensures AdmittedPath(plan, positions, insts)
  {
    hide RestrictedAll, Lowers;
    forall n: nat, r: Reg | n < |insts| && MayHold(plan, positions[n], r)
      ensures PermittedAt(plan, insts, n, r)
    {
      assert PermittedBy(cycle, n % |cycle|, insts[n], r, r in plan.deferred);
    }
  }

  /** Lifetimes inside the stretches that permitting builders watched: those
      builders' observations start at a step and cover the lifetime. */
  lemma AddedAdmits(s: Scopes, insts: seq<Instruction>, reg: Reg, begin: nat, end: nat, p: seq<Step>, from: nat)
    requires AdmittedPath(Plan(s.bases, {}), s.positions, insts) && begin <= end < |s.positions|
    requires from <= begin && end <= from + |p|
    requires forall k: nat :: k < |p| && from + k < |insts| ==> Lowers(insts[from + k], p[k].inst)
    requires RestrictedAll(NO_RULES, p).Permits(reg)
    requires forall n: nat, r: Reg :: n < |s.positions| && r in s.positions[n].allowed ==> r in s.bases
    ensures var t := Added(s, reg, begin, end);
            && AdmittedPath(Plan(t.bases, {}), t.positions, insts)
            && forall n: nat, r: Reg :: n < |t.positions| && r in t.positions[n].allowed ==> r in t.bases
  {
    hide RestrictedAll, Lowers;
    var t := Added(s, reg, begin, end);
    forall n: nat, r: Reg | n < |insts| && MayHold(Plan(t.bases, {}), t.positions[n], r)
      ensures PermittedAt(Plan(t.bases, {}), insts, n, r)
    {
      if r in s.positions[n].allowed {
        assert MayHold(Plan(s.bases, {}), s.positions[n], r);
        assert PermittedAt(Plan(s.bases, {}), insts, n, r);
      } else {
        assert PermittedBy(p, n - from, insts[n], r, false);
      }
    }
  }

  /** What emission does: enter a step's scope, turn an eligible base into a
      pointer, emit an instruction, or end the group. */
  datatype Move = Enters(step: nat) | Acquires(reg: Reg, bias: Long) | Emits(step: nat) | Finishes

  /** The step whose scope was entered last. */
  function Current(moves: seq<Move>): Option<nat> {
    if moves == [] then None
    else
      var last := moves[|moves| - 1];
      if last.Enters? then Some(last.step) else Current(moves[..|moves| - 1])
  }

  /** Every instruction is emitted in its own step's scope. */
  ghost predicate Ordered(moves: seq<Move>, steps: nat) {
    forall i: nat :: i < |moves| ==> InOrder(moves, steps, i)
  }

  ghost predicate InOrder(moves: seq<Move>, steps: nat, i: nat)
    requires i < |moves|
  {
    match moves[i]
    case Enters(step) => step < steps
    case Emits(step) => step < steps && Current(moves[..i]) == Some(step)
    case _ => true
  }

  datatype Code = Code(positions: seq<Position>, insts: seq<Instruction>)

  function Moved(f: Families, c: Code, m: Machine, move: Move): (n: Option<Machine>)
    requires m.s.Valid() && (move.Enters? ==> move.step < |c.positions|) && (move.Emits? ==> move.step < |c.insts|)
    ensures n.Some? ==> n.value.s.Valid()
  {
    hide *;
    match move
    case Enters(step) => Some(m.(s := Scope(m.s, c.positions[step].allowed, c.positions[step].ending)))
    case Acquires(reg, bias) => Some(if reg in m.s.active || m.s.Eligible(reg) then m.(s := Acquire(m.s, reg, bias)) else m)
    case Emits(step) => ExecutedValid(f, m, c.insts[step]); Executed(f, m, c.insts[step])
    case Finishes => Some(m.(s := FinishGroup(m.s)))
  }

  lemma ExecutedValid(f: Families, m: Machine, inst: Instruction)
    requires m.s.Valid()
    ensures Executed(f, m, inst).Some? ==> Executed(f, m, inst).value.s.Valid()
  {
    hide Effect, WritebackChange;
  }

  /** The host machine after a sequence of moves; None once a lowering throws. */
  function HostRun(f: Families, c: Code, m: Machine, moves: seq<Move>): (n: Option<Machine>)
    requires m.s.Valid()
    requires forall i: nat :: i < |moves| ==> InCode(c, moves[i])
    ensures n.Some? ==> n.value.s.Valid()
  {
    if moves == [] then Some(m)
    else
      var last := |moves| - 1;
      var before := HostRun(f, c, m, moves[..last]);
      assert InCode(c, moves[last]);
      if before.None? then None else Moved(f, c, before.value, moves[last])
  }

  predicate InCode(c: Code, move: Move) {
    (move.Enters? ==> move.step < |c.positions|) && (move.Emits? ==> move.step < |c.insts|)
  }

  /** The guest executes the emitted instructions and nothing else. */
  function GuestRun(f: Families, c: Code, g: Guest, moves: seq<Move>): (h: Guest)
    requires |g.regs| == 16
    requires forall i: nat :: i < |moves| ==> InCode(c, moves[i])
    ensures |h.regs| == 16
  {
    if moves == [] then g
    else
      var last := |moves| - 1;
      var before := GuestRun(f, c, g, moves[..last]);
      assert InCode(c, moves[last]);
      match moves[last]
      case Emits(step) => Plain(f, before, c.insts[step])
      case _ => before
  }

  /** What holds between moves: forms are only held where the scope allows. */
  ghost predicate Inside(c: Code, s: State, plan: Plan, moves: seq<Move>)
    requires s.Valid()
  {
    && s.plan == plan && s.active <= s.allowed
    && (Current(moves).Some? ==>
          Current(moves).value < |c.positions| && s.allowed == c.positions[Current(moves).value].allowed)
  }

  /** In its own step's scope an instruction finds only forms its observers permit. */
  lemma ScopeAdmits(c: Code, s: State, plan: Plan, moves: seq<Move>, step: nat)
    requires s.Valid() && AdmittedPath(plan, c.positions, c.insts) && step < |c.insts|
    requires Inside(c, s, plan, moves) && Current(moves) == Some(step)
    ensures Admitted(s, c.insts[step])
  {
    hide Permitted;
    forall r: Reg | r in s.active || r in s.plan.deferred
      ensures Permitted(c.insts[step], r, r in s.plan.deferred)
    {
      assert MayHold(plan, c.positions[step], r);
      assert PermittedAt(plan, c.insts, step, r);
    }
  }

  /** One move keeps the host standing for the guest. */
  lemma MoveExact(f: Families, c: Code, plan: Plan, m: Machine, g: Guest, moves: seq<Move>, move: Move)
    requires Represents(m, g) && InCode(c, move) && Inside(c, m.s, plan, moves)
    requires AdmittedPath(plan, c.positions, c.insts)
    requires move.Emits? ==> Current(moves) == Some(move.step)
    ensures var n := Moved(f, c, m, move);
            && n.Some? && Inside(c, n.value.s, plan, moves + [move])
            && Represents(n.value, if move.Emits? then Plain(f, g, c.insts[move.step]) else g)
  {
    hide Executed, Plain, Denotes, Scope, FinishGroup, Acquire, AdmittedPath, Admitted;
    assert (moves + [move])[..|moves|] == moves;
    match move
    case Enters(step) =>
      ScopeDenotes(m.s, c.positions[step].allowed, c.positions[step].ending, g.regs);
      ScopeShape(m.s, c.positions[step]);
    case Acquires(reg, bias) =>
      if reg in m.s.active || m.s.Eligible(reg) {
        AcquireDenotes(m.s, reg, bias, g.regs);
        AcquireShape(m.s, reg, bias);
      }
    case Emits(step) =>
      ScopeAdmits(c, m.s, plan, moves, step);
      ExecutedExact(f, m, g, c.insts[step]);
      ExecutedShape(f, m, c.insts[step]);
    case Finishes =>
      FinishDenotes(m.s, g.regs);
      FinishKeeps(m.s);
  }

  lemma ScopeShape(s: State, p: Position)
    requires s.Valid()
    ensures var t := Scope(s, p.allowed, p.ending); t.plan == s.plan && t.allowed == p.allowed
  {
  }

  lemma AcquireShape(s: State, reg: Reg, bias: Long)
    requires s.Valid() && (reg in s.active || s.Eligible(reg)) && s.active <= s.allowed
    ensures var t := Acquire(s, reg, bias); t.plan == s.plan && t.allowed == s.allowed && t.active <= t.allowed
  {
  }

  lemma FinishKeeps(s: State)
    requires s.Valid()
    ensures var t := FinishGroup(s); t.plan == s.plan && t.allowed == s.allowed
  {
  }

  lemma ExecutedShape(f: Families, m: Machine, inst: Instruction)
    requires m.s.Valid() && Executed(f, m, inst).Some?
    ensures var t := Executed(f, m, inst).value.s;
            t.plan == m.s.plan && t.allowed == m.s.allowed && t.active == m.s.active
  {
    hide Effect, WritebackChange;
  }

  /** Over every run of a body whose plan the builders admitted, with any bases
      acquired wherever they are eligible: no lowering throws, the host computes
      the guest's flags and opaque state, every register denotes its guest value
      and reads as it, and an exit taken there publishes exactly the guest's
      registers. */
  lemma {:induction false} RunDenotes(f: Families, c: Code, plan: Plan, m: Machine, g: Guest, moves: seq<Move>)
    requires Represents(m, g) && m.s.plan == plan && m.s.active <= m.s.allowed
    requires AdmittedPath(plan, c.positions, c.insts)
    requires |c.insts| <= |c.positions| && Ordered(moves, |c.insts|)
    ensures forall i: nat :: i < |moves| ==> InCode(c, moves[i])
    ensures var n, h := HostRun(f, c, m, moves), GuestRun(f, c, g, moves);
            && n.Some? && Represents(n.value, h) && Inside(c, n.value.s, plan, moves)
            && forall r: Reg :: ReadGuest(n.value.s, r) == h.regs[r] &&
                                Wrap(Exit(n.value.s, n.value.s.active, n.value.s.offsets)[r]) == h.regs[r]
    decreases |moves|
  {
    hide AdmittedPath, Moved, Plain, ReadGuest, Exit, State.Valid;
    forall i: nat | i < |moves|
      ensures InCode(c, moves[i])
    {
      assert InOrder(moves, |c.insts|, i);
    }
    if moves != [] {
      var last := |moves| - 1;
      var before := moves[..last];
      forall i: nat | i < |before|
        ensures InOrder(before, |c.insts|, i)
      {
        assert InOrder(moves, |c.insts|, i);
        assert before[..i] == moves[..i];
      }
      RunDenotes(f, c, plan, m, g, before);
      assert InOrder(moves, |c.insts|, last);
      assert before + [moves[last]] == moves;
      MoveExact(f, c, plan, HostRun(f, c, m, before).value, GuestRun(f, c, g, before), before, moves[last]);
    }
    PublishesGuest(HostRun(f, c, m, moves).value, GuestRun(f, c, g, moves));
  }

  /** Reads and exits of a representing host. */
  lemma PublishesGuest(m: Machine, g: Guest)
    requires Represents(m, g)
    ensures forall r: Reg :: ReadGuest(m.s, r) == g.regs[r] && Wrap(Exit(m.s, m.s.active, m.s.offsets)[r]) == g.regs[r]
  {
    hide ReadGuest, Exit;
    ExitExact(m.s, g.regs);
    forall r: Reg
      ensures ReadGuest(m.s, r) == g.regs[r]
    {
      ReadGuestExact(m.s, r, g.regs);
    }
  }
}
