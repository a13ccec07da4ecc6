/** Guest registers held as page pointers or as entry values with fixed offsets.

Host register r may hold bias + guest (modulo 2^64, with the bias saved) or, for a
deferred base, its entry value while an offset accumulates at compile time. Every
operation keeps the architectural value denoted, and every exit publishes it.
 */
module AddressRegisters {
  import opened Words
  import opened Wrappers
  import opened Isa
  import opened IntegerSemantics
  import opened AddressDisplacements
  import opened AddressRegisterPlan

  type Long = x: int | 0 <= x < 0x1_0000_0000_0000_0000

  function Wrap64(x: int): Long {
    x % HOST
  }

  /** The guest word of a pointer formed with this bias. */
  function Unbiased(pointer: int, bias: int): Word {
    Wrap(pointer - bias)
  }

  datatype Plan = Plan(bases: seq<Reg>, deferred: set<Reg>) {
    predicate Valid() {
      && |bases| <= CAPACITY && (forall r <- deferred :: r in bases) && (forall r <- bases :: r < 15)
      && forall i, j :: 0 <= i < j < |bases| ==> bases[i] != bases[j]
    }
  }

  /** Position of a register among the plan's bases, or their count. */
  function SlotOf(bases: seq<Reg>, reg: Reg): (i: nat)
    ensures i <= |bases| && (i < |bases| ==> bases[i] == reg) && (i < |bases| <==> reg in bases)
  {
    if bases == [] || bases[0] == reg then 0 else 1 + SlotOf(bases[1..], reg)
  }

  /** What emission tracks, and what the emitted code has done to host state. */
  datatype State = State(
    plan: Plan, active: set<Reg>, allowed: set<Reg>, offsets: seq<Word>, x: seq<Long>, saved: seq<Long>)
  {
    predicate Valid() {
      && plan.Valid() && |offsets| == |saved| == CAPACITY && |x| == 16
      && (forall r <- active :: r in plan.bases && r !in plan.deferred)
      && (forall i :: 0 <= i < |plan.bases| && plan.bases[i] !in plan.deferred ==> offsets[i] == 0)
    }

    predicate EntryRelative(reg: Reg) {
      reg in plan.deferred
    }

    /** A base that may become a pointer here. */
    predicate Eligible(reg: Reg) {
      reg in allowed && reg in plan.bases && !EntryRelative(reg)
    }
  }

  function Slot(s: State, reg: Reg): (i: nat)
    requires s.Valid() && reg in s.plan.bases
    ensures i < CAPACITY && i < |s.plan.bases| && s.plan.bases[i] == reg
  {
    SlotOf(s.plan.bases, reg)
  }

  /** The guest value a host register stands for. */
  function Denoted(s: State, reg: Reg): Word
    requires s.Valid()
  {
    if reg in s.active then Unbiased(s.x[reg], s.saved[Slot(s, reg)])
    else if reg in s.plan.deferred then Wrap(s.x[reg] + s.offsets[Slot(s, reg)])
    else Wrap(s.x[reg])
  }

  ghost predicate Denotes(s: State, regs: seq<Word>)
    requires s.Valid()
  {
    |regs| == 16 && forall r: Reg :: Denoted(s, r) == regs[r]
  }

  /** Become a pointer by adding the resolved page bias. */
  function Acquire(s: State, reg: Reg, bias: Long): (t: State)
    requires s.Valid() && (reg in s.active || s.Eligible(reg))
    ensures t.Valid()
  {
    if reg in s.active then s
    else s.(saved := s.saved[Slot(s, reg) := bias], x := s.x[reg := Wrap64(bias + s.x[reg])], active := s.active + {reg})
  }

  datatype Result = Unhandled | Invalid | Done(state: State)

  /** A data-processing instruction whose destination is in one of the two forms. */
  function UpdateForm(s: State, inst: Instruction): Result
    requires s.Valid()
  {
    if 8 <= inst.opcode <= 11 then Unhandled
    else if s.EntryRelative(inst.rd) then
      if !IsUpdate(inst) || !inst.immediateOperand then Invalid
      else
        var i := Slot(s, inst.rd);
        Done(s.(offsets := s.offsets[i := Wrap(s.offsets[i] + Towards(inst.opcode == 4, inst.immediate))]))
    else if inst.rd !in s.active then Unhandled
    else if !IsUpdate(inst) then Invalid
    else
      var amount := if inst.immediateOperand then inst.immediate
                    else Signed(Wrap(s.x[inst.rm])) * Pow2(inst.shiftAmount);
      Done(s.(x := s.x[inst.rd := Wrap64(s.x[inst.rd] + Towards(inst.opcode == 4, amount))]))
  }

  /** A base update after a memory access. */
  function WritebackForm(s: State, inst: Instruction): Result
    requires s.Valid()
  {
    if inst.rn !in s.active && !s.EntryRelative(inst.rn) then Unhandled
    else
      var change := WritebackChange(inst);
      if change.None? || change.value.delta < -4095 || change.value.delta > 4095 then Invalid
      else if s.EntryRelative(inst.rn) then
        var i := Slot(s, inst.rn);
        Done(s.(offsets := s.offsets[i := Wrap(s.offsets[i] + change.value.delta)]))
      else
        Done(s.(x := s.x[inst.rn := Wrap64(s.x[inst.rn] + change.value.delta)]))
  }

  /** The word read_guest computes, without changing any form. */
  function ReadGuest(s: State, reg: Reg): Word
    requires s.Valid()
  {
    if reg !in s.active then
      if s.EntryRelative(reg) && s.offsets[Slot(s, reg)] != 0 then Wrap(Wrap(s.x[reg]) + s.offsets[Slot(s, reg)])
      else Wrap(s.x[reg])
    else Wrap(Wrap(s.x[reg]) - Wrap(s.saved[Slot(s, reg)]))
  }

  /** Host registers after restoring the bases of mask from index i on. */
  function Restored(s: State, mask: set<Reg>, i: nat): (x: seq<Long>)
    requires s.Valid() && i <= |s.plan.bases|
    ensures |x| == 16
  {
    if i == 0 then s.x
    else
      var before, reg := Restored(s, mask, i - 1), s.plan.bases[i - 1];
      if reg !in mask then before
      else before[reg := Wrap(Wrap(before[reg]) - Wrap(s.saved[i - 1]))]
  }

  /** Host registers after publishing nonzero offsets of the first i bases. */
  function Published(s: State, offsets: seq<Word>, x: seq<Long>, i: nat): (y: seq<Long>)
    requires s.Valid() && i <= |s.plan.bases| && |offsets| == CAPACITY && |x| == 16
    ensures |y| == 16
  {
    if i == 0 then x
    else
      var before, reg := Published(s, offsets, x, i - 1), s.plan.bases[i - 1];
      if offsets[i - 1] == 0 then before
      else before[reg := Wrap(Wrap(before[reg]) + offsets[i - 1])]
  }

  function Restore(s: State, mask: set<Reg>): (x: seq<Long>)
    requires s.Valid()
    ensures |x| == 16
  {
    Restored(s, mask, |s.plan.bases|)
  }

  const ZERO_OFFSETS: seq<Word> := [0, 0, 0, 0]

  /** Give back bases whose lifetime ends here or that are not allowed next. */
  function Scope(s: State, allowed: set<Reg>, ending: set<Reg>): (t: State)
    requires s.Valid()
    ensures t.Valid()
  {
    var finished := set r | r in s.active && (r in ending || r !in allowed);
    s.(x := Restore(s, finished), active := s.active - finished, allowed := allowed)
  }

  function FinishGroup(s: State): (t: State)
    requires s.Valid()
    ensures t.Valid()
  {
    s.(x := Published(s, s.offsets, Restore(s, s.active), |s.plan.bases|), active := {}, offsets := ZERO_OFFSETS)
  }

  /** What an exit leaves in the host registers: the offsets recorded for it are
      published first, then the pointers recorded for it are restored. */
  function Exit(s: State, mask: set<Reg>, offsets: seq<Word>): (x: seq<Long>)
    requires s.Valid() && |offsets| == CAPACITY
    ensures |x| == 16
  {
    Restore(s.(x := Published(s, offsets, s.x, |s.plan.bases|)), mask)
  }

  /** Any other instruction writes words to host registers, whatever they held. */
  function Others(s: State, values: map<Reg, Word>): (t: State)
    requires s.Valid()
    ensures t.Valid()
  {
    s.(x := seq(16, r requires 0 <= r < 16 => if r in values then values[r] else s.x[r]))
  }

  lemma Wrap64Wraps(a: int)
    ensures Wrap(Wrap64(a)) == Wrap(a)
  {
    assert Wrap64(a) == a - a / HOST * HOST;
    assert Same(Wrap64(a), a) by {
      assert Wrap64(a) == a + (-(a / HOST) * WORD) * WORD;
    }
    WrapSame(Wrap64(a), a);
  }

  /** Truncating the terms of a difference does not change the word. */
  lemma WordDifference(a: int, b: int)
    ensures Wrap(Wrap(a) - Wrap(b)) == Wrap(a - b) && Wrap(Wrap(a) + Wrap(b)) == Wrap(a + b)
  {
    WrappedMove(Wrap(a), false, b);
    WrappedMove(Wrap(a), true, b);
    WrappedMove(-b, true, a);
    WrappedMove(b, true, a);
  }

  lemma SlotsDistinct(s: State, a: Reg, b: Reg)
    requires s.Valid() && a in s.plan.bases && b in s.plan.bases && a != b
    ensures Slot(s, a) != Slot(s, b)
  {
  }

  lemma AcquireDenotes(s: State, reg: Reg, bias: Long, regs: seq<Word>)
    requires s.Valid() && Denotes(s, regs) && (reg in s.active || s.Eligible(reg))
    ensures Denotes(Acquire(s, reg, bias), regs)
    ensures reg !in s.active && s.x[reg] == regs[reg] ==> Acquire(s, reg, bias).x[reg] == Wrap64(bias + regs[reg])
  {
    if reg !in s.active {
      var t := Acquire(s, reg, bias);
      forall r: Reg
        ensures Denoted(t, r) == regs[r]
      {
        assert Denoted(s, r) == regs[r];
        if r == reg {
          Difference64(bias, s.x[reg]);
        } else if r in s.plan.bases {
          SlotsDistinct(s, r, reg);
        }
      }
    }
  }

  lemma Difference64(bias: Long, x: Long)
    ensures Wrap(Wrap64(bias + x) - bias) == Wrap(x)
  {
    Wrap64Wraps(bias + x);
    WordDifference(Wrap64(bias + x), bias);
    WordDifference(bias + x, bias);
  }

  /** Moving a pointer or an offset moves the guest value it denotes. */
  lemma Moves64(x: Long, saved: Long, amount: int)
    ensures Wrap(Wrap64(x + amount) - saved) == Wrap(Wrap(x - saved) + amount)
  {
    Wrap64Wraps(x + amount);
    WordDifference(Wrap64(x + amount), saved);
    WordDifference(x + amount, saved);
    SumMoves(0, x - saved, amount);
  }

  lemma OffsetMoves(x: Long, offset: Word, amount: int)
    ensures Wrap(x + Wrap(offset + amount)) == Wrap(Wrap(x + offset) + amount)
  {
    WrappedMove(x, true, offset + amount);
    SumMoves(0, x + offset, amount);
  }

  /** A handled update gives the destination the portable ALU result. */
  lemma UpdateDenotes(s: State, inst: Instruction, regs: seq<Word>, flags: Flags)
    requires s.Valid() && Denotes(s, regs) && UpdateForm(s, inst).Done?
    requires !inst.immediateOperand ==> inst.rm !in s.active && inst.rm !in s.plan.deferred
    ensures UpdateForm(s, inst).state.Valid()
    ensures var operand := Operand(inst, regs[inst.rm], regs[inst.rs], flags.c);
            var result := CalculateAlu(inst.opcode, inst.setFlags, regs[inst.rd], operand, flags);
            result.flags == flags && Denotes(UpdateForm(s, inst).state, regs[inst.rd := result.value])
  {
    hide Operand, CalculateAlu, Pow2, Wrap, Denoted;
    var t, rd, add := UpdateForm(s, inst).state, inst.rd, inst.opcode == 4;
    var operand := Operand(inst, regs[inst.rm], regs[inst.rs], flags.c);
    UpdateValue(inst, regs, operand, flags);
    UpdateAmount(s, inst, regs);
    hide IsUpdate;
    FormMoves(s, t, rd, Towards(add, Amount(inst, regs)), regs);
  }

  /** What a recognised update adds or subtracts, read as a signed stride. */
  function Amount(inst: Instruction, regs: seq<Word>): int
    requires |regs| == 16
  {
    if inst.immediateOperand then inst.immediate else Signed(regs[inst.rm]) * Pow2(inst.shiftAmount)
  }

  lemma UpdateValue(inst: Instruction, regs: seq<Word>, operand: ShiftResult, flags: Flags)
    requires |regs| == 16 && IsUpdate(inst) && operand == Operand(inst, regs[inst.rm], regs[inst.rs], flags.c)
    ensures var result := CalculateAlu(inst.opcode, inst.setFlags, regs[inst.rd], operand, flags);
            result.flags == flags && result.value == Wrap(regs[inst.rd] + Towards(inst.opcode == 4, Amount(inst, regs)))
  {
    hide Operand, CalculateAlu, Pow2, Wrap;
    AddsOperand(inst, regs[inst.rd], operand, flags);
    UpdateKeepsFlags(inst, regs[inst.rd], operand, flags);
    UpdateOperand(inst, regs, flags.c);
  }

  /** The host reads the stride from a register in neither form. */
  lemma UpdateAmount(s: State, inst: Instruction, regs: seq<Word>)
    requires s.Valid() && Denotes(s, regs) && IsUpdate(inst)
    requires !inst.immediateOperand ==> inst.rm !in s.active && inst.rm !in s.plan.deferred
    ensures !inst.immediateOperand ==> Signed(Wrap(s.x[inst.rm])) * Pow2(inst.shiftAmount) == Amount(inst, regs)
  {
    hide Pow2;
    if !inst.immediateOperand {
      assert Denoted(s, inst.rm) == regs[inst.rm];
    }
  }

  /** Moving the form of one base by some amount moves what it denotes. */
  lemma FormMoves(s: State, t: State, reg: Reg, amount: int, regs: seq<Word>)
    requires s.Valid() && Denotes(s, regs) && (reg in s.active || reg in s.plan.deferred)
    requires t == if s.EntryRelative(reg) then s.(offsets := s.offsets[Slot(s, reg) := Wrap(s.offsets[Slot(s, reg)] + amount)])
                  else s.(x := s.x[reg := Wrap64(s.x[reg] + amount)])
    ensures t.Valid() && Denotes(t, regs[reg := Wrap(regs[reg] + amount)])
  {
    assert Denoted(s, reg) == regs[reg];
    if s.EntryRelative(reg) {
      OffsetMoves(s.x[reg], s.offsets[Slot(s, reg)], amount);
    } else {
      Moves64(s.x[reg], s.saved[Slot(s, reg)], amount);
    }
    OneMoves(s, t, reg, regs, Wrap(regs[reg] + amount));
  }

  lemma UpdateKeepsFlags(inst: Instruction, a: Word, operand: ShiftResult, flags: Flags)
    requires IsUpdate(inst)
    ensures CalculateAlu(inst.opcode, inst.setFlags, a, operand, flags).flags == flags
  {
  }

  /** The scaled operand and the signed stride agree modulo 2^32. */
  lemma UpdateOperand(inst: Instruction, regs: seq<Word>, carry: bool)
    requires |regs| == 16 && IsUpdate(inst)
    ensures var operand := Operand(inst, regs[inst.rm], regs[inst.rs], carry).value;
            Wrap(regs[inst.rd] + Towards(inst.opcode == 4, operand)) ==
            Wrap(regs[inst.rd] + Towards(inst.opcode == 4, Amount(inst, regs)))
  {
    if !inst.immediateOperand {
      hide Pow2, Operand;
      var p, w := Pow2(inst.shiftAmount), regs[inst.rm];
      ScaledOperand(inst, w, carry, regs[inst.rs]);
      WrapScale(Signed(w), w, p, 0);
      assert p * w == w * p;
      WrappedMove(regs[inst.rd], inst.opcode == 4, w * p);
      WrappedMove(regs[inst.rd], inst.opcode == 4, Signed(w) * p);
    }
  }

  /** Only one register's form changed, and it denotes the new value. */
  lemma OneMoves(s: State, t: State, reg: Reg, regs: seq<Word>, value: Word)
    requires s.Valid() && t.Valid() && Denotes(s, regs) && reg in s.plan.bases
    requires t.plan == s.plan && t.active == s.active && t.saved == s.saved && Denoted(t, reg) == value
    requires forall r: Reg :: r != reg ==> t.x[r] == s.x[r]
    requires forall i: nat :: i < CAPACITY && i != Slot(s, reg) ==> t.offsets[i] == s.offsets[i]
    ensures Denotes(t, regs[reg := value])
  {
    forall r: Reg
      ensures Denoted(t, r) == regs[reg := value][r]
    {
      assert Denoted(s, r) == regs[r];
      if r != reg && r in s.plan.bases {
        SlotsDistinct(s, r, reg);
      }
    }
  }

  /** A handled writeback moves the base by the architectural displacement. */
  lemma WritebackDenotes(s: State, inst: Instruction, regs: seq<Word>)
    requires s.Valid() && Denotes(s, regs) && WritebackForm(s, inst).Done?
    ensures WritebackForm(s, inst).state.Valid() && WritebackChange(inst).Some?
    ensures Denotes(WritebackForm(s, inst).state, regs[inst.rn := Wrap(regs[inst.rn] + WritebackChange(inst).value.delta)])
  {
    hide WritebackChange;
    FormMoves(s, WritebackForm(s, inst).state, inst.rn, WritebackChange(inst).value.delta, regs);
  }

  /** Reading through the representation yields the guest register. */
  lemma ReadGuestExact(s: State, reg: Reg, regs: seq<Word>)
    requires s.Valid() && Denotes(s, regs)
    ensures ReadGuest(s, reg) == regs[reg]
  {
    assert Denoted(s, reg) == regs[reg];
    if reg in s.active {
      WordDifference(s.x[reg], s.saved[Slot(s, reg)]);
    } else if reg in s.plan.deferred {
      WordDifference(s.x[reg], s.offsets[Slot(s, reg)]);
    }
  }

  lemma {:induction false} RestoredAt(s: State, mask: set<Reg>, i: nat, r: Reg)
    requires s.Valid() && i <= |s.plan.bases|
    ensures Restored(s, mask, i)[r] ==
            if r in mask && r in s.plan.bases && Slot(s, r) < i
            then Unbiased(s.x[r], s.saved[Slot(s, r)]) else s.x[r]
  {
    if i > 0 {
      RestoredAt(s, mask, i - 1, r);
      if s.plan.bases[i - 1] == r {
        assert Slot(s, r) == i - 1;
        WordDifference(s.x[r], s.saved[i - 1]);
      }
    }
  }

  lemma {:induction false} PublishedAt(s: State, offsets: seq<Word>, x: seq<Long>, i: nat, r: Reg)
    requires s.Valid() && i <= |s.plan.bases| && |offsets| == CAPACITY && |x| == 16
    ensures Published(s, offsets, x, i)[r] ==
            if r in s.plan.bases && Slot(s, r) < i && offsets[Slot(s, r)] != 0
            then Wrap(x[r] + offsets[Slot(s, r)]) else x[r]
  {
    hide Slot, State.Valid;
    if i > 0 {
      PublishedAt(s, offsets, x, i - 1, r);
      SlotIs(s, r, i - 1);
      if s.plan.bases[i - 1] == r {
        WordDifference(x[r], offsets[i - 1]);
      }
    }
  }

  /** A base sits in the one slot that names it. */
  lemma SlotIs(s: State, r: Reg, i: nat)
    requires s.Valid() && i < |s.plan.bases|
    ensures i < CAPACITY && s.plan.bases[i] in s.plan.bases
    ensures r in s.plan.bases ==> (Slot(s, r) == i <==> s.plan.bases[i] == r)
  {
  }

  /** Restoring the pointers of mask turns exactly those registers back. */
  lemma RestoreAt(s: State, mask: set<Reg>, r: Reg)
    requires s.Valid() && mask <= s.active
    ensures Restore(s, mask)[r] == if r in mask then Denoted(s, r) else s.x[r]
  {
    RestoredAt(s, mask, |s.plan.bases|, r);
  }

  /** A scope change gives back bases without changing what anything denotes. */
  lemma ScopeDenotes(s: State, allowed: set<Reg>, ending: set<Reg>, regs: seq<Word>)
    requires s.Valid() && Denotes(s, regs)
    ensures Denotes(Scope(s, allowed, ending), regs) && Scope(s, allowed, ending).active <= allowed
  {
    var finished := set r | r in s.active && (r in ending || r !in allowed);
    var t := Scope(s, allowed, ending);
    forall r: Reg
      ensures Denoted(t, r) == regs[r]
    {
      assert Denoted(s, r) == regs[r];
      RestoreAt(s, finished, r);
    }
  }

  lemma ExitAt(s: State, r: Reg)
    requires s.Valid()
    ensures Wrap(Exit(s, s.active, s.offsets)[r]) == Denoted(s, r)
  {
    hide Published, Restore;
    var t := s.(x := Published(s, s.offsets, s.x, |s.plan.bases|));
    PublishedAt(s, s.offsets, s.x, |s.plan.bases|, r);
    RestoreAt(t, s.active, r);
  }

  /** What an exit publishes: every host register holds its architectural value. */
  lemma ExitExact(s: State, regs: seq<Word>)
    requires s.Valid() && Denotes(s, regs)
    ensures forall r: Reg :: Wrap(Exit(s, s.active, s.offsets)[r]) == regs[r]
  {
    hide Exit, Denoted;
    forall r: Reg
      ensures Wrap(Exit(s, s.active, s.offsets)[r]) == regs[r]
    {
      ExitAt(s, r);
    }
  }

  /** After a group every register is architectural again, in either form's stead. */
  lemma FinishDenotes(s: State, regs: seq<Word>)
    requires s.Valid() && Denotes(s, regs)
    ensures Denotes(FinishGroup(s), regs) && FinishGroup(s).active == {}
    ensures forall r: Reg :: Wrap(FinishGroup(s).x[r]) == regs[r]
  {
    hide FinishGroup, Denoted;
    forall r: Reg
      ensures Wrap(FinishGroup(s).x[r]) == regs[r] && Denoted(FinishGroup(s), r) == regs[r]
    {
      FinishAt(s, r);
    }
    FinishShape(s);
  }

  lemma FinishShape(s: State)
    requires s.Valid()
    ensures FinishGroup(s).active == {}
  {
  }

  lemma FinishAt(s: State, r: Reg)
    requires s.Valid()
    ensures Wrap(FinishGroup(s).x[r]) == Denoted(s, r) == Denoted(FinishGroup(s), r)
  {
    hide Restore, Published, SlotOf, Unbiased;
    RestoreAt(s, s.active, r);
    PublishedAt(s, s.offsets, Restore(s, s.active), |s.plan.bases|, r);
  }

  lemma OthersDenote(s: State, values: map<Reg, Word>, regs: seq<Word>)
    requires s.Valid() && Denotes(s, regs)
    requires forall r: Reg :: r in values ==> r !in s.active && r !in s.plan.deferred
    ensures Denotes(Others(s, values), Overwritten(regs, values))
  {
    forall r: Reg
      ensures Denoted(Others(s, values), r) == Overwritten(regs, values)[r]
    {
      assert Denoted(s, r) == regs[r];
    }
  }

  function Overwritten(regs: seq<Word>, values: map<Reg, Word>): (out: seq<Word>)
    requires |regs| == 16
    ensures |out| == 16
  {
    seq(16, r requires 0 <= r < 16 => if r in values then values[r] else regs[r])
  }

  /** A pointer that has not left its page is the page bias plus the guest value. */
  lemma PointerExact(bias: Long, guest: Word, moved: int)
    requires 0 <= guest % PAGE + moved < PAGE
    ensures Wrap64(Wrap64(bias + guest) + moved) == Wrap64(bias + Wrap(guest + moved))
  {
    PageLocal(guest, moved);
    var q := (bias + guest) / HOST;
    assert Wrap64(bias + guest) == bias + guest - q * HOST;
    DivModUnique(bias + guest + moved, HOST, (bias + guest + moved) / HOST, Wrap64(bias + guest + moved));
    DivModUnique(Wrap64(bias + guest) + moved, HOST, (bias + guest + moved) / HOST - q, Wrap64(bias + guest + moved));
  }

  /** The compile-scoped object; host and saved are what its emitted code does. */
  class AddressRegisters {
    const plan: Plan
    var active: set<Reg>
    var allowed: set<Reg>
    var offsets: seq<Word>
    var host: seq<Long>
    var saved: seq<Long>

    constructor (plan: Plan, host: seq<Long>, saved: seq<Long>)
      requires plan.Valid() && |host| == 16 && |saved| == CAPACITY
      ensures this.plan == plan
      ensures Now() == State(plan, {}, ALL_REGISTERS, ZERO_OFFSETS, host, saved) && Now().Valid()
    {
      this.plan, this.host, this.saved := plan, host, saved;
      active, allowed, offsets := {}, ALL_REGISTERS, ZERO_OFFSETS;
    }

    function Now(): State
      reads this
    {
      State(plan, active, allowed, offsets, host, saved)
    }

    method AcquireBase(reg: Reg, bias: Long)
      requires Now().Valid() && (reg in active || Now().Eligible(reg))
      modifies `active, `host, `saved
      ensures Now() == Acquire(old(Now()), reg, bias)
    {
      if reg in active {
        return;
      }
      saved := saved[Slot(Now(), reg) := bias];
      host := host[reg := Wrap64(bias + host[reg])];
      active := active + {reg};
    }

    /** Whether the update was handled here; None where the source throws. */
    method UpdateBase(inst: Instruction) returns (handled: Option<bool>)
      requires Now().Valid()
      modifies `offsets, `host
      ensures match UpdateForm(old(Now()), inst)
              case Unhandled => handled == Some(false) && Now() == old(Now())
              case Invalid => handled == None && Now() == old(Now())
              case Done(t) => handled == Some(true) && Now() == t
    {
      if 8 <= inst.opcode <= 11 {
        return Some(false);
      }
      if inst.rd in plan.deferred {
        if !IsUpdate(inst) || !inst.immediateOperand {
          return None;
        }
        var i := Slot(Now(), inst.rd);
        offsets := offsets[i := Wrap(offsets[i] + Towards(inst.opcode == 4, inst.immediate))];
        return Some(true);
      }
      if inst.rd !in active {
        return Some(false);
      }
      if !IsUpdate(inst) {
        return None;
      }
      var amount := if inst.immediateOperand then inst.immediate
                    else Signed(Wrap(host[inst.rm])) * Pow2(inst.shiftAmount);
      host := host[inst.rd := Wrap64(host[inst.rd] + Towards(inst.opcode == 4, amount))];
      return Some(true);
    }

    method WritebackBase(inst: Instruction) returns (handled: Option<bool>)
      requires Now().Valid()
      modifies `offsets, `host
      ensures match WritebackForm(old(Now()), inst)
              case Unhandled => handled == Some(false) && Now() == old(Now())
              case Invalid => handled == None && Now() == old(Now())
              case Done(t) => handled == Some(true) && Now() == t
    {
      hide WritebackChange;
      if inst.rn !in active && inst.rn !in plan.deferred {
        return Some(false);
      }
      var change := WritebackChange(inst);
      if change.None? || change.value.delta < -4095 || change.value.delta > 4095 {
        return None;
      }
      if inst.rn in plan.deferred {
        var i := Slot(Now(), inst.rn);
        offsets := offsets[i := Wrap(offsets[i] + change.value.delta)];
      } else {
        host := host[inst.rn := Wrap64(host[inst.rn] + change.value.delta)];
      }
      return Some(true);
    }

    method RestoreBases(mask: set<Reg>)
      requires Now().Valid()
      modifies `host
      ensures host == Restore(old(Now()), mask)
    {
      var i: nat := 0;
      while i < |plan.bases|
        invariant i <= |plan.bases| && host == Restored(old(Now()), mask, i)
      {
        var reg := plan.bases[i];
        if reg in mask {
          host := host[reg := Wrap(Wrap(host[reg]) - Wrap(saved[i]))];
        }
        i := i + 1;
      }
    }

    method PublishOffsets(published: seq<Word>)
      requires Now().Valid() && |published| == CAPACITY
      modifies `host
      ensures host == Published(old(Now()), published, old(host), |plan.bases|)
    {
      var i: nat := 0;
      while i < |plan.bases|
        invariant i <= |plan.bases| && host == Published(old(Now()), published, old(host), i)
      {
        var reg := plan.bases[i];
        if published[i] != 0 {
          host := host[reg := Wrap(Wrap(host[reg]) + published[i])];
        }
        i := i + 1;
      }
    }

    method ChangeScope(next: set<Reg>, ending: set<Reg>)
      requires Now().Valid()
      modifies `active, `allowed, `host
      ensures Now() == Scope(old(Now()), next, ending)
    {
      var finished := set r | r in active && (r in ending || r !in next);
      RestoreBases(finished);
      active := active - finished;
      allowed := next;
    }

    method CloseGroup()
      requires Now().Valid()
      modifies `active, `offsets, `host
      ensures Now() == FinishGroup(old(Now()))
    {
      RestoreBases(active);
      ghost var restored := Now();
      PublishOffsets(offsets);
      SamePublication(old(Now()), restored, offsets, |plan.bases|);
      active, offsets := {}, ZERO_OFFSETS;
    }
  }

  /** Publication depends on the plan and on the registers it starts from only. */
  lemma {:induction false} SamePublication(s: State, t: State, offsets: seq<Word>, i: nat)
    requires s.Valid() && t.Valid() && t.plan == s.plan && |offsets| == CAPACITY && i <= |s.plan.bases|
    ensures Published(t, offsets, t.x, i) == Published(s, offsets, t.x, i)
  {
    if i > 0 {
      SamePublication(s, t, offsets, i - 1);
    }
  }
}
