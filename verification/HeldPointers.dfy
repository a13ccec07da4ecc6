/** Accesses through a base that is held as a host pointer.

The first access of a strided window or segment turns its base into a pointer;
later ones use the moved register instead of the slot. Its moves follow the
guest's, and the guard that the first access passed keeps both in one page.
 */
module HeldPointers {
  import opened Words
  import opened Wrappers
  import opened Isa
  import opened AddressDisplacements
  import opened AddressKeys
  import opened AddressRegisterPlan
  import opened AddressRegisters
  import opened AddressRegisterScopes
  import opened AddressRegisterRuns
  import CacheRuns
  import PointerPaths
  import PointerRuns

  /** How far an emitted instruction moves a held base, as a signed distance. */
  function Travel(m: Machine, inst: Instruction, base: Reg): int
    requires m.s.Valid()
  {
    if !ConditionPassed(inst.condition, m.flags) then 0
    else if inst.kind.DataProcessing? && IsUpdate(inst) && inst.rd == base then
      Towards(inst.opcode == 4, if inst.immediateOperand then inst.immediate
                                else Signed(Wrap(m.s.x[inst.rm])) * Pow2(inst.shiftAmount))
    else if inst.kind.VectorTransfer? && inst.writeback && inst.rn == base && WritebackChange(inst).Some? then
      WritebackChange(inst).value.delta
    else 0
  }

  /** The pointer held in base, and the bias saved for it. */
  predicate Holds(s: State, base: Reg, pointer: Long, bias: Long) {
    s.Valid() && base in s.active && s.x[base] == pointer && s.saved[Slot(s, base)] == bias
  }

  /** An ordinary lowering leaves a held base alone. */
  lemma OrdinaryHolds(f: Families, m: Machine, inst: Instruction, base: Reg, pointer: Long, bias: Long)
    requires m.s.Valid() && Holds(m.s, base, pointer, bias) && base !in Operands(inst)
    ensures Holds(Ordinary(f, m, inst).s, base, pointer, bias)
  {
    hide Operands, Effect;
    EffectFrame(f, inst, Direct(m.s), Direct(m.s), m.flags, m.rest);
  }

  /** What an admitted instruction that names a held base does to it. */
  lemma NamedHandled(s: State, inst: Instruction, base: Reg)
    requires s.Valid() && Admitted(s, inst) && base in s.active && base in Operands(inst)
    ensures Handled(Step(inst, true), base)
  {
    hide Permitted, Operands;
    PermittedHandled(inst, base, base in s.plan.deferred);
  }

  lemma UpdateHolds(f: Families, m: Machine, inst: Instruction, base: Reg, pointer: Long, bias: Long)
    requires m.s.Valid() && Admitted(m.s, inst) && Holds(m.s, base, pointer, bias) && inst.kind.DataProcessing?
    requires ConditionPassed(inst.condition, m.flags) && Executed(f, m, inst).Some?
    ensures Holds(Executed(f, m, inst).value.s, base, Wrap64(pointer + Travel(m, inst, base)), bias)
  {
    hide Ordinary, Operands, Admitted, ConditionPassed, WritebackChange, Pow2, Signed;
    ExecutedValid(f, m, inst);
    UpdateNames(inst);
    if base in Operands(inst) {
      NamedHandled(m.s, inst, base);
    } else {
      OrdinaryHolds(f, m, inst, base, pointer, bias);
    }
  }

  lemma UpdateNames(inst: Instruction)
    requires inst.kind.DataProcessing?
    ensures !IsTest(inst.opcode) ==> inst.rd in Operands(inst)
  {
  }

  lemma TransferHolds(f: Families, m: Machine, inst: Instruction, base: Reg, pointer: Long, bias: Long)
    requires m.s.Valid() && Admitted(m.s, inst) && Holds(m.s, base, pointer, bias) && inst.kind.VectorTransfer?
    requires ConditionPassed(inst.condition, m.flags) && Executed(f, m, inst).Some?
    ensures Holds(Executed(f, m, inst).value.s, base, Wrap64(pointer + Travel(m, inst, base)), bias)
  {
    hide Operands, Admitted, ConditionPassed, WritebackChange, BaseAfter, Effect, UpdateForm, IsUpdate, Ordinary, Direct;
    ExecutedValid(f, m, inst);
    if inst.writeback {
      BaseForm(m.s, inst);
    }
  }

  /** One emitted instruction moves a held pointer by its travel and keeps its bias. */
  lemma ExecutedHolds(f: Families, m: Machine, inst: Instruction, base: Reg, pointer: Long, bias: Long)
    requires m.s.Valid() && Admitted(m.s, inst) && Holds(m.s, base, pointer, bias) && Executed(f, m, inst).Some?
    ensures Holds(Executed(f, m, inst).value.s, base, Wrap64(pointer + Travel(m, inst, base)), bias)
  {
    hide Ordinary, Operands, Admitted, ConditionPassed, WritebackChange, AddressRegisterRuns.Transfer, UpdateForm, Holds;
    if ConditionPassed(inst.condition, m.flags) {
      if inst.kind.DataProcessing? {
        UpdateHolds(f, m, inst, base, pointer, bias);
      } else if inst.kind.VectorTransfer? {
        TransferHolds(f, m, inst, base, pointer, bias);
      } else {
        HeldActive(m.s, base, pointer, bias);
        if base in Operands(inst) {
          NamedHandled(m.s, inst, base);
          NeverHandled(inst, base);
        }
        OrdinaryHolds(f, m, inst, base, pointer, bias);
      }
    }
  }

  lemma HeldActive(s: State, base: Reg, pointer: Long, bias: Long)
    requires s.Valid() && Holds(s, base, pointer, bias)
    ensures base in s.active
  {
  }

  /** The other things emission does leave a pointer alone that is still held. */
  lemma ScopeHolds(s: State, p: Position, base: Reg, pointer: Long, bias: Long)
    requires s.Valid() && Holds(s, base, pointer, bias) && base in Scope(s, p.allowed, p.ending).active
    ensures Holds(Scope(s, p.allowed, p.ending), base, pointer, bias)
  {
    var finished := set r | r in s.active && (r in p.ending || r !in p.allowed);
    RestoreAt(s, finished, base);
    hide Restore;
  }

  lemma AcquireHolds(s: State, reg: Reg, other: Long, base: Reg, pointer: Long, bias: Long)
    requires s.Valid() && Holds(s, base, pointer, bias) && (reg in s.active || s.Eligible(reg))
    ensures Holds(Acquire(s, reg, other), base, pointer, bias)
  {
  }

  ghost predicate InRun(c: Code, moves: seq<Move>) {
    forall i: nat :: i < |moves| ==> InCode(c, moves[i])
  }

  /** How far a run moves a held base. */
  function Travelled(f: Families, c: Code, m: Machine, moves: seq<Move>, base: Reg): int
    requires m.s.Valid() && forall i: nat :: i < |moves| ==> InCode(c, moves[i])
  {
    if moves == [] then 0
    else
      var last := |moves| - 1;
      var before := HostRun(f, c, m, moves[..last]);
      assert InCode(c, moves[last]);
      Travelled(f, c, m, moves[..last], base) +
      (if before.Some? && moves[last].Emits? then Travel(before.value, c.insts[moves[last].step], base) else 0)
  }

  /** The base stays a pointer throughout the run. */
  ghost predicate StaysHeld(f: Families, c: Code, m: Machine, moves: seq<Move>, base: Reg)
    requires m.s.Valid() && forall i: nat :: i < |moves| ==> InCode(c, moves[i])
  {
    forall i: nat :: i <= |moves| ==> HeldAfter(f, c, m, moves, base, i)
  }

  ghost predicate HeldAfter(f: Families, c: Code, m: Machine, moves: seq<Move>, base: Reg, i: nat)
    requires m.s.Valid() && i <= |moves| && forall i: nat :: i < |moves| ==> InCode(c, moves[i])
  {
    HostRun(f, c, m, moves[..i]).Some? && base in HostRun(f, c, m, moves[..i]).value.s.active
  }

  /** One move of emission. */
  lemma MoveHolds(f: Families, c: Code, plan: Plan, m: Machine, moves: seq<Move>, move: Move, base: Reg, pointer: Long, bias: Long)
    requires m.s.Valid() && InCode(c, move) && Inside(c, m.s, plan, moves) && AdmittedPath(plan, c.positions, c.insts)
    requires (move.Emits? ==> Current(moves) == Some(move.step)) && Holds(m.s, base, pointer, bias)
    requires AddressRegisterRuns.Moved(f, c, m, move).Some? && base in AddressRegisterRuns.Moved(f, c, m, move).value.s.active
    ensures Holds(AddressRegisterRuns.Moved(f, c, m, move).value.s, base,
                  Wrap64(pointer + if move.Emits? then Travel(m, c.insts[move.step], base) else 0), bias)
  {
    hide Executed, Scope, Acquire, AdmittedPath, Admitted, Travel, Holds, Inside;
    match move
    case Enters(step) => ScopeHolds(m.s, c.positions[step], base, pointer, bias);
    case Acquires(reg, other) =>
      if reg in m.s.active || m.s.Eligible(reg) {
        AcquireHolds(m.s, reg, other, base, pointer, bias);
      }
    case Emits(step) =>
      ScopeAdmits(c, m.s, plan, moves, step);
      ExecutedHolds(f, m, c.insts[step], base, pointer, bias);
    case Finishes =>
  }

  /** Over a run in which the base stays a pointer, the pointer has moved by exactly
      what the run travelled, and the guest's base by the same modulo 2^32. */
  lemma {:induction false} HeldRun(f: Families, c: Code, plan: Plan, m: Machine, g: Guest, moves: seq<Move>, base: Reg,
                                   pointer: Long, bias: Long)
    requires Represents(m, g) && m.s.plan == plan && m.s.active <= m.s.allowed
    requires AdmittedPath(plan, c.positions, c.insts)
    requires |c.insts| <= |c.positions| && Ordered(moves, |c.insts|)
    requires InRun(c, moves) && StaysHeld(f, c, m, moves, base) && Holds(m.s, base, pointer, bias)
    ensures var n := HostRun(f, c, m, moves);
            n.Some? && Holds(n.value.s, base, Wrap64(pointer + Travelled(f, c, m, moves, base)), bias)
    decreases |moves|
  {
    hide AdmittedPath, AddressRegisterRuns.Moved, Travel, Holds, Denotes, Executed;
    assert HeldAfter(f, c, m, moves, base, |moves|) && moves[..|moves|] == moves;
    if moves == [] {
      Long64(pointer);
    } else {
      var last := |moves| - 1;
      var before := moves[..last];
      PrefixHeld(f, c, m, moves, base);
      HeldRun(f, c, plan, m, g, before, base, pointer, bias);
      RunDenotes(f, c, plan, m, g, before);
      assert InOrder(moves, |c.insts|, last) && InCode(c, moves[last]);
      var n, travelled := HostRun(f, c, m, before).value, Travelled(f, c, m, before, base);
      MoveHolds(f, c, plan, n, before, moves[last], base, Wrap64(pointer + travelled), bias);
      Wrap64Sum(pointer + travelled, if moves[last].Emits? then Travel(n, c.insts[moves[last].step], base) else 0);
    }
  }

  lemma PrefixHeld(f: Families, c: Code, m: Machine, moves: seq<Move>, base: Reg)
    requires m.s.Valid() && InRun(c, moves) && moves != [] && Ordered(moves, |c.insts|) && StaysHeld(f, c, m, moves, base)
    ensures var before := moves[..|moves| - 1];
            InRun(c, before) && Ordered(before, |c.insts|) && StaysHeld(f, c, m, before, base)
  {
    hide HostRun, InCode;
    var before := moves[..|moves| - 1];
    forall i: nat | i < |before|
      ensures InCode(c, before[i]) && InOrder(before, |c.insts|, i)
    {
      assert InCode(c, moves[i]) && InOrder(moves, |c.insts|, i);
      assert before[..i] == moves[..i];
    }
    forall i: nat | i <= |before|
      ensures HeldAfter(f, c, m, before, base, i)
    {
      assert HeldAfter(f, c, m, moves, base, i);
      assert before[..i] == moves[..i];
    }
  }

  lemma Long64(x: Long)
    ensures Wrap64(x + 0) == x
  {
  }

  lemma Wrap64Sum(a: int, b: int)
    ensures Wrap64(Wrap64(a) + b) == Wrap64(a + b)
  {
    assert a == a / HOST * HOST + Wrap64(a);
    DivModUnique(Wrap64(a) + b, HOST, (a + b) / HOST - a / HOST, Wrap64(a + b));
  }

  /** The guest's base moves with the pointer. */
  lemma HeldGuest(f: Families, c: Code, plan: Plan, m: Machine, g: Guest, moves: seq<Move>, base: Reg, pointer: Long, bias: Long)
    requires Represents(m, g) && m.s.plan == plan && m.s.active <= m.s.allowed
    requires AdmittedPath(plan, c.positions, c.insts)
    requires |c.insts| <= |c.positions| && Ordered(moves, |c.insts|)
    requires InRun(c, moves) && StaysHeld(f, c, m, moves, base) && Holds(m.s, base, pointer, bias)
    ensures |g.regs| == 16
    ensures GuestRun(f, c, g, moves).regs[base] == Wrap(g.regs[base] + Travelled(f, c, m, moves, base))
  {
    hide HostRun, GuestRun, AdmittedPath, Ordered, Travelled, Wrap, Wrap64;
    HeldRun(f, c, plan, m, g, moves, base, pointer, bias);
    RunDenotes(f, c, plan, m, g, moves);
    var travelled := Travelled(f, c, m, moves, base);
    UnbiasedMoves(pointer, travelled, bias);
    var n, h := HostRun(f, c, m, moves).value, GuestRun(f, c, g, moves);
    assert Denoted(n.s, base) == h.regs[base] && Denoted(m.s, base) == g.regs[base];
  }

  lemma UnbiasedMoves(pointer: Long, moved: int, bias: int)
    ensures Unbiased(Wrap64(pointer + moved), bias) == Wrap(Unbiased(pointer, bias) + moved)
  {
    hide Wrap64, Wrap;
    Wrap64Wraps(pointer + moved);
    SumMoves(Wrap64(pointer + moved), 0, 0 - bias);
    SumMoves(pointer + moved, 0, 0 - bias);
    SumMoves(pointer, 0 - bias, moved);
    assert pointer + (0 - bias) == pointer - bias && Wrap64(pointer + moved) + (0 - bias) == Wrap64(pointer + moved) - bias;
  }

  /** An access whose address is its base register's value. */
  predicate Plainly(key: Key, base: Reg) {
    key.base == base && key.offset == 0 && key.index.None? && key.pcBase.None?
  }

  lemma PlainAddress(key: Key, base: Reg, regs: seq<Word>)
    requires |regs| == 16 && Plainly(key, base)
    ensures EffectiveAddress(key, regs) == regs[base]
  {
  }

  /** Two plain accesses off this base that share a window or a segment. */
  ghost predicate ShareBase(plan: PointerPaths.Plan, trips: seq<PointerRuns.Trip>, len: nat, s: nat, t: nat, base: Reg) {
    plan.Valid() && PointerRuns.Shares(plan, trips, len, s, t) && Plainly(plan.KeyAt(s).value, base) && Plainly(plan.KeyAt(t).value, base)
  }

  /** The pointer a fresh translation gives the access at step t of the last pass. */
  function PointerAt(plan: PointerPaths.Plan, trips: seq<PointerRuns.Trip>, t: nat): int {
    if trips != [] && t < |trips[|trips| - 1].regs| && |trips[|trips| - 1].regs[t]| == 16 && plan.KeyAt(t).Some?
    then PointerRuns.Translated(trips[|trips| - 1], plan.KeyAt(t).value, trips[|trips| - 1].regs[t]) else 0
  }

  function BaseAt(trips: seq<PointerRuns.Trip>, t: nat, base: Reg): Word {
    if trips != [] && t < |trips[|trips| - 1].regs| && |trips[|trips| - 1].regs[t]| == 16
    then trips[|trips| - 1].regs[t][base] else 0
  }

  /** Moving the pointer of one access by the distance its base travels gives the
      pointer of another, since both lie in one page. */
  lemma TravelledPointer(plan: PointerPaths.Plan, trips: seq<PointerRuns.Trip>, len: nat, s: nat, t: nat, base: Reg, travelled: int)
    requires ShareBase(plan, trips, len, s, t, base)
    requires BaseAt(trips, t, base) == Wrap(BaseAt(trips, s, base) + travelled) && -HALF <= travelled < HALF
    ensures PointerAt(plan, trips, t) == PointerAt(plan, trips, s) + travelled
  {
    hide PointerPaths.Plan.Valid, PointerRuns.Linked, PointerRuns.Guarded, PointerRuns.TripRun, PointerRuns.BodyOf, PointerRuns.OpAt, EffectiveAddress, CacheRuns.Executes,
         PointerPaths.Plan.IdentityOf;
    PointerRuns.OnePage(plan, trips, len, s, t);
    var trip := trips[|trips| - 1];
    PlainAddress(plan.KeyAt(s).value, base, trip.regs[s]);
    PlainAddress(plan.KeyAt(t).value, base, trip.regs[t]);
    NearTravel(trip.regs[s][base], trip.regs[t][base], travelled);
  }

  lemma NearTravel(a: Word, b: Word, travelled: int)
    requires b == Wrap(a + travelled) && a / PAGE == b / PAGE && -HALF <= travelled < HALF
    ensures b == a + travelled
  {
  }

  /** A run of admitted code from one access to another during which the base stays
      the pointer it became at the first. */
  ghost predicate HeldBetween(plan: PointerPaths.Plan, trips: seq<PointerRuns.Trip>, s: nat, t: nat, base: Reg,
                              f: Families, c: Code, m: Machine, g: Guest, moves: seq<Move>, bias: Long)
  {
    && Represents(m, g) && m.s.active <= m.s.allowed && AdmittedPath(m.s.plan, c.positions, c.insts)
    && |c.insts| <= |c.positions| && Ordered(moves, |c.insts|)
    && InRun(c, moves) && StaysHeld(f, c, m, moves, base)
    && Holds(m.s, base, Wrap64(PointerAt(plan, trips, s)), bias)
    && |g.regs| == 16 && g.regs[base] == BaseAt(trips, s, base)
    && GuestRun(f, c, g, moves).regs[base] == BaseAt(trips, t, base)
  }

  ghost predicate TravelsShort(f: Families, c: Code, m: Machine, moves: seq<Move>, base: Reg) {
    m.s.Valid() && InRun(c, moves) && -HALF <= Travelled(f, c, m, moves, base) < HALF
  }

  ghost predicate EndsHolding(f: Families, c: Code, m: Machine, moves: seq<Move>, base: Reg, pointer: Long, bias: Long) {
    m.s.Valid() && InRun(c, moves) && HostRun(f, c, m, moves).Some? && Holds(HostRun(f, c, m, moves).value.s, base, pointer, bias)
  }

  /** The joined theorem. A base that became a pointer at one access of a guarded
      window or segment, and has stayed one since, is exactly the pointer that
      translating a later such access would give, if it travelled less than 2^31. */
  lemma HeldExact(plan: PointerPaths.Plan, trips: seq<PointerRuns.Trip>, len: nat, s: nat, t: nat, base: Reg,
                  f: Families, c: Code, m: Machine, g: Guest, moves: seq<Move>, bias: Long)
    requires ShareBase(plan, trips, len, s, t, base)
    requires HeldBetween(plan, trips, s, t, base, f, c, m, g, moves, bias)
    requires TravelsShort(f, c, m, moves, base)
    ensures EndsHolding(f, c, m, moves, base, Wrap64(PointerAt(plan, trips, t)), bias)
  {
    hide PointerPaths.Plan.Valid, ShareBase, AdmittedPath, HostRun, GuestRun, Travelled, Wrap, Wrap64, PointerAt, BaseAt, Denotes, Holds;
    var pointer, travelled := PointerAt(plan, trips, s), Travelled(f, c, m, moves, base);
    HeldRun(f, c, m.s.plan, m, g, moves, base, Wrap64(pointer), bias);
    HeldGuest(f, c, m.s.plan, m, g, moves, base, Wrap64(pointer), bias);
    TravelledPointer(plan, trips, len, s, t, base, travelled);
    Wrap64Sum(pointer, travelled);
  }

  /** Constant updates only ever move a held base a little. */
  lemma ShortTravel(m: Machine, inst: Instruction, base: Reg)
    requires m.s.Valid() && Admitted(m.s, inst) && base in m.s.active
    requires IsUpdate(inst) && inst.rd == base ==> inst.immediateOperand
    ensures -4095 <= Travel(m, inst, base) <= 4095
  {
    hide Admitted, ConditionPassed, WritebackChange;
    if inst.kind.VectorTransfer? && inst.writeback {
      BaseForm(m.s, inst);
    }
  }

  /** So with constant updates the limit is met by any run of half a million moves. */
  lemma {:induction false} ConstantTravel(f: Families, c: Code, plan: Plan, m: Machine, g: Guest, moves: seq<Move>, base: Reg)
    requires Represents(m, g) && m.s.plan == plan && m.s.active <= m.s.allowed
    requires AdmittedPath(plan, c.positions, c.insts)
    requires |c.insts| <= |c.positions| && Ordered(moves, |c.insts|)
    requires InRun(c, moves) && StaysHeld(f, c, m, moves, base)
    requires forall inst <- c.insts :: IsUpdate(inst) && inst.rd == base ==> inst.immediateOperand
    ensures -4095 * |moves| <= Travelled(f, c, m, moves, base) <= 4095 * |moves|
    decreases |moves|
  {
    hide AdmittedPath, Travel, Denotes, Executed, IsUpdate;
    if moves != [] {
      var last := |moves| - 1;
      var before := moves[..last];
      PrefixHeld(f, c, m, moves, base);
      ConstantTravel(f, c, plan, m, g, before, base);
      RunDenotes(f, c, plan, m, g, before);
      assert HeldAfter(f, c, m, moves, base, last);
      assert InOrder(moves, |c.insts|, last) && InCode(c, moves[last]);
      if moves[last].Emits? {
        var n, step := HostRun(f, c, m, before).value, moves[last].step;
        ScopeAdmits(c, n.s, plan, before, step);
        ShortTravel(n, c.insts[step], base);
      }
    }
  }
}
