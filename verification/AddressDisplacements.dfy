/** Modulo-2^32 displacements from each register's value at entry.

An abstract interpreter over guest instructions: a known expression stays true
after every retired instruction, and unknown or conditional writes revoke it.
 */
module AddressDisplacements {
  import opened Words
  import opened Wrappers
  import opened Isa
  import opened IntegerSemantics

  datatype Change = Change(reg: Reg, delta: Int32)

  datatype Expression = Expression(constant: Int32, coefficient: Int32, index: Option<Reg>) {
    function Added(other: Expression): Option<Expression> {
      if index.Some? && other.index.Some? && index != other.index then None
      else
        var sum := ToSigned(coefficient + other.coefficient);
        Some(Expression(ToSigned(constant + other.constant), sum,
                        if sum == 0 then None else if index.Some? then index else other.index))
    }

    /** The displacement this expression denotes, before truncation. */
    function Denotes(entry: seq<Word>): int
      requires |entry| == 16
    {
      constant + coefficient * (if index.Some? then entry[index.value] else 0)
    }

    predicate Normal() {
      index.None? <==> coefficient == 0
    }
  }

  const UNCHANGED := Expression(0, 0, None)

  /** The statically known base update of a memory instruction. */
  function WritebackChange(inst: Instruction): Option<Change> {
    if !inst.writeback || inst.rn == 15 then None
    else
      match inst.kind
      case Transfer =>
        if !inst.immediateOperand || (inst.load && inst.rd == inst.rn) then None
        else Some(Change(inst.rn, ToSigned(Towards(inst.add, inst.immediate))))
      case DualTransfer =>
        if !inst.immediateOperand || (inst.load && (inst.rd == inst.rn || inst.rs == inst.rn)) then None
        else Some(Change(inst.rn, ToSigned(Towards(inst.add, inst.immediate))))
      case MultipleTransfer =>
        if inst.load && inst.rn in inst.registers then None
        else Some(Change(inst.rn, ToSigned(Towards(inst.add, 4 * |inst.registers|))))
      case VectorTransfer(scalarMultiple, length, _, _) =>
        if scalarMultiple then Some(Change(inst.rn, ToSigned(Towards(inst.add, inst.immediate))))
        else if inst.rm == 13 || inst.rm == 15 then Some(Change(inst.rn, ToSigned(length)))
        else None
      case _ => None
  }

  lemma {:induction false} Pow2Monotone(a: nat, b: nat)
    requires a <= b
    ensures Pow2(a) <= Pow2(b)
  {
    if a < b {
      Pow2Monotone(a, b - 1);
    }
  }

  lemma WrapNonzero(p: int)
    requires 1 <= p <= HALF
    ensures Wrap(p) != 0 && Wrap(-p) != 0
  {
  }

  /** No shift below 32 scales to zero modulo 2^32. */
  lemma Pow2Nonzero(n: nat)
    requires n < 32
    ensures Wrap(Pow2(n)) != 0 && Wrap(Towards(false, Pow2(n))) != 0
  {
    Pow2Word();
    Pow2Monotone(n, 31);
    WrapNonzero(Pow2(n));
  }

  datatype Update = Update(reg: Reg, increment: Expression)

  /** The update observe recognises, before the condition revokes it. */
  function KnownUpdate(inst: Instruction, written: set<Reg>): (u: Option<Update>)
    ensures u.Some? ==> u.value.increment.Normal()
  {
    var adjusts := inst.kind.DataProcessing? && inst.rd == inst.rn && inst.rd < 15 && (inst.opcode == 2 || inst.opcode == 4);
    if adjusts && !inst.immediateOperand && !inst.registerShift && inst.shift == Lsl && inst.shiftAmount < 32 &&
       inst.rm < 15 && inst.rm != inst.rd && inst.rm !in written
    then
      Pow2Nonzero(inst.shiftAmount);
      var scale := ToSigned(Towards(inst.opcode == 4, Pow2(inst.shiftAmount)));
      Some(Update(inst.rd, Expression(0, scale, Some(inst.rm))))
    else if adjusts && inst.immediateOperand then
      Some(Update(inst.rd, Expression(ToSigned(Towards(inst.opcode == 4, inst.immediate)), 0, None)))
    else
      match WritebackChange(inst)
      case None => None
      case Some(change) => Some(Update(change.reg, Expression(change.delta, 0, None)))
  }

  datatype Facts = Facts(values: seq<Option<Expression>>, modified: set<Reg>, written: set<Reg>)

  const ENTRY_VALUES: seq<Option<Expression>> :=
    [Some(UNCHANGED), Some(UNCHANGED), Some(UNCHANGED), Some(UNCHANGED),
     Some(UNCHANGED), Some(UNCHANGED), Some(UNCHANGED), Some(UNCHANGED),
     Some(UNCHANGED), Some(UNCHANGED), Some(UNCHANGED), Some(UNCHANGED),
     Some(UNCHANGED), Some(UNCHANGED), Some(UNCHANGED), Some(UNCHANGED)]

  const INITIAL: Facts := Facts(ENTRY_VALUES, {}, {})

  predicate Wellformed(f: Facts) {
    |f.values| == 16 && forall r: Reg :: f.values[r].Some? ==> f.values[r].value.Normal()
  }

  /** The abstract transfer function. */
  function Observed(f: Facts, inst: Instruction): (g: Facts)
    requires Wellformed(f)
    ensures Wellformed(g)
  {
    hide KnownUpdate, WrittenRegisters;
    var update := if inst.condition != 14 then None else KnownUpdate(inst, f.written);
    var lost := WrittenRegisters(inst);
    var kept := seq(16, r requires 0 <= r < 16 => if r in lost then None else f.values[r]);
    var written := f.written + lost;
    if update.Some? && f.values[update.value.reg].Some? then
      Facts(kept[update.value.reg := f.values[update.value.reg].value.Added(update.value.increment)],
            f.modified + {update.value.reg}, written)
    else Facts(kept, f.modified, written)
  }

  ghost predicate Moved(r: Reg, before: seq<Word>, after: seq<Word>, delta: int)
    requires |before| == |after| == 16
  {
    after[r] == Wrap(before[r] + delta)
  }

  /** Architectural base update of an executed memory instruction (DDI 0406, A8). */
  ghost predicate BaseUpdated(inst: Instruction, before: seq<Word>, after: seq<Word>)
    requires |before| == |after| == 16
  {
    var offset := Towards(inst.add, inst.immediate);
    inst.writeback && inst.rn != 15 ==>
      match inst.kind
      case Transfer => inst.immediateOperand && !(inst.load && inst.rd == inst.rn) ==> Moved(inst.rn, before, after, offset)
      case DualTransfer =>
        inst.immediateOperand && !(inst.load && (inst.rd == inst.rn || inst.rs == inst.rn)) ==> Moved(inst.rn, before, after, offset)
      case MultipleTransfer =>
        !(inst.load && inst.rn in inst.registers) ==>
          Moved(inst.rn, before, after, Towards(inst.add, 4 * |inst.registers|))
      case VectorTransfer(scalarMultiple, length, _, _) =>
        (scalarMultiple ==> Moved(inst.rn, before, after, offset)) &&
        (!scalarMultiple && (inst.rm == 13 || inst.rm == 15) ==> Moved(inst.rn, before, after, length))
      case _ => true
  }

  /** The effect on the registers of one instruction that retires in line. Only
      written registers change; an unconditional one performs its update. */
  ghost predicate Retires(inst: Instruction, before: seq<Word>, after: seq<Word>) {
    && |before| == |after| == 16
    && (forall r: Reg :: r !in WrittenRegisters(inst) ==> after[r] == before[r])
    && (inst.condition == 14 ==>
          && BaseUpdated(inst, before, after)
          && (inst.kind.DataProcessing? && !IsTest(inst.opcode) && inst.rd < 15 &&
              (inst.immediateOperand || inst.rm < 15) ==>
                exists a: Word, flags: Flags :: AluWrites(inst, before, after, a, flags)))
  }

  /** The portable result is written; a first source r15 reads the PC value a. */
  ghost predicate AluWrites(inst: Instruction, before: seq<Word>, after: seq<Word>, a: Word, flags: Flags)
    requires |before| == |after| == 16
  {
    && (inst.rn < 15 ==> a == before[inst.rn])
    && after[inst.rd] == CalculateAlu(inst.opcode, inst.setFlags, a,
                                      Operand(inst, before[inst.rm], before[inst.rs], flags.c), flags).value
  }

  /** Whatever the registers hold, some retirement of the instruction follows. */
  lemma RetiresTotal(inst: Instruction, before: seq<Word>) returns (after: seq<Word>)
    requires |before| == 16
    ensures Retires(inst, before, after)
  {
    hide CalculateAlu, Operand;
    after := before;
    if inst.condition == 14 && inst.kind.DataProcessing? && !IsTest(inst.opcode) && inst.rd < 15 &&
       (inst.immediateOperand || inst.rm < 15)
    {
      var flags := Flags(false, false, false, false);
      var a := if inst.rn < 15 then before[inst.rn] else 0;
      after := before[inst.rd := CalculateAlu(inst.opcode, inst.setFlags, a,
                                              Operand(inst, before[inst.rm], before[inst.rs], flags.c), flags).value];
      assert AluWrites(inst, before, after, a, flags);
    } else if inst.condition == 14 && inst.writeback &&
              (inst.kind.Transfer? || inst.kind.DualTransfer? || inst.kind.VectorTransfer? || inst.kind.MultipleTransfer?)
    {
      var delta := match inst.kind
        case MultipleTransfer => Towards(inst.add, 4 * |inst.registers|)
        case VectorTransfer(scalarMultiple, length, _, _) =>
          if scalarMultiple then Towards(inst.add, inst.immediate) else length
        case _ => Towards(inst.add, inst.immediate);
      after := before[inst.rn := Wrap(before[inst.rn] + delta)];
    }
  }

  /** Every fact holds of the current registers. */
  ghost predicate Sound(f: Facts, entry: seq<Word>, current: seq<Word>) {
    && Wellformed(f) && |entry| == |current| == 16
    && (forall r: Reg :: f.values[r].Some? ==> current[r] == Wrap(entry[r] + f.values[r].value.Denotes(entry)))
    && (forall r: Reg :: r !in f.written ==> current[r] == entry[r])
    && (forall r: Reg :: f.values[r].Some? && r !in f.modified ==> f.values[r].value == UNCHANGED)
  }

  lemma InitialSound(entry: seq<Word>)
    requires |entry| == 16
    ensures Sound(INITIAL, entry, entry)
  {
    EntryValues();
    hide ENTRY_VALUES;
  }

  lemma EntryValues()
    ensures |ENTRY_VALUES| == 16 && forall r: Reg :: ENTRY_VALUES[r] == Some(UNCHANGED)
  {
  }

  /** Adding denotations is adding displacements modulo 2^32. */
  lemma AddedDenotes(a: Expression, b: Expression, entry: seq<Word>, base: int)
    requires |entry| == 16 && a.Normal() && b.Normal() && a.Added(b).Some?
    ensures a.Added(b).value.Normal()
    ensures Wrap(base + a.Added(b).value.Denotes(entry)) == Wrap(base + a.Denotes(entry) + b.Denotes(entry))
  {
    var index := if a.index.Some? then a.index else b.index;
    var e := if index.Some? then entry[index.value] else 0;
    ScaledSum(base, a.constant, b.constant, a.coefficient, b.coefficient, e);
    DenotesAt(a, entry, index);
    DenotesAt(b, entry, index);
    DenotesAt(a.Added(b).value, entry, index);
  }

  /** A normal expression without an index has no scaled part to place. */
  lemma DenotesAt(x: Expression, entry: seq<Word>, index: Option<Reg>)
    requires |entry| == 16 && x.Normal() && (x.index.Some? ==> x.index == index)
    ensures x.Denotes(entry) == x.constant + x.coefficient * (if index.Some? then entry[index.value] else 0)
  {
  }

  /** A recognised update adds exactly its increment to its register. */
  lemma UpdateMoves(inst: Instruction, written: set<Reg>, entry: seq<Word>, before: seq<Word>, after: seq<Word>)
    requires |entry| == 16 && Retires(inst, before, after) && inst.condition == 14
    requires forall r: Reg :: r !in written ==> before[r] == entry[r]
    requires KnownUpdate(inst, written).Some?
    ensures var u := KnownUpdate(inst, written).value;
            u.increment.Normal() && u.reg in WrittenRegisters(inst) &&
            after[u.reg] == Wrap(before[u.reg] + u.increment.Denotes(entry))
  {
    hide CalculateAlu, Operand, Wrap;
    var u := KnownUpdate(inst, written).value;
    if u.increment.index.Some? || (inst.kind.DataProcessing? && inst.immediateOperand) {
      hide BaseUpdated, WritebackChange;
      AluMoves(inst, written, entry, before, after);
    } else {
      hide WrittenRegisters, AluWrites;
      WritebackMoves(inst, before, after);
      WritebackWrites(inst);
    }
  }

  lemma WritebackWrites(inst: Instruction)
    requires WritebackChange(inst).Some?
    ensures WritebackChange(inst).value.reg == inst.rn && inst.rn in WrittenRegisters(inst)
  {
  }

  /** The statically known change is the architectural one modulo 2^32. */
  lemma WritebackMoves(inst: Instruction, before: seq<Word>, after: seq<Word>)
    requires |before| == |after| == 16 && BaseUpdated(inst, before, after) && WritebackChange(inst).Some?
    ensures after[inst.rn] == Wrap(before[inst.rn] + WritebackChange(inst).value.delta)
  {
    hide Wrap, ToSigned;
    SignedShift(before[inst.rn], Towards(inst.add, inst.immediate));
    SignedShift(before[inst.rn], Towards(inst.add, 4 * |inst.registers|));
    if inst.kind.VectorTransfer? {
      SignedShift(before[inst.rn], inst.kind.length);
    }
  }

  lemma AluMoves(inst: Instruction, written: set<Reg>, entry: seq<Word>, before: seq<Word>, after: seq<Word>)
    requires |entry| == 16 && Retires(inst, before, after) && inst.condition == 14
    requires forall r: Reg :: r !in written ==> before[r] == entry[r]
    requires inst.kind.DataProcessing? && KnownUpdate(inst, written).Some?
    ensures var u := KnownUpdate(inst, written).value;
            u.increment.Normal() && u.reg == inst.rd &&
            after[inst.rd] == Wrap(before[inst.rd] + u.increment.Denotes(entry))
  {
    hide Shift, And, Or, Xor;
    var u := KnownUpdate(inst, written).value;
    var a: Word, flags: Flags :| AluWrites(inst, before, after, a, flags);
    var b := Operand(inst, before[inst.rm], before[inst.rs], flags.c).value;
    var add := inst.opcode == 4;
    AddsOperand(inst, before[inst.rd], Operand(inst, before[inst.rm], before[inst.rs], flags.c), flags);
    if !inst.immediateOperand {
      ScaledOperand(inst, entry[inst.rm], flags.c, before[inst.rs]);
      Pow2Nonzero(inst.shiftAmount);
      ScaledMove(before[inst.rd], add, Pow2(inst.shiftAmount), entry[inst.rm]);
    } else {
      SignedShift(before[inst.rd], Towards(add, inst.immediate));
    }
  }

  lemma AddsOperand(inst: Instruction, a: Word, b: ShiftResult, flags: Flags)
    requires inst.opcode == 2 || inst.opcode == 4
    ensures CalculateAlu(inst.opcode, inst.setFlags, a, b, flags).value == Wrap(a + Towards(inst.opcode == 4, b.value))
  {
  }

  lemma ScaledMove(base: Word, add: bool, p: nat, e: Word)
    ensures Wrap(base + Towards(add, Wrap(p * e))) == Wrap(base + ToSigned(Towards(add, p)) * e)
  {
    var scale := Towards(add, p);
    WrapScale(ToSigned(scale), scale, e, base);
    assert scale * e == Towards(add, p * e);
    WrappedMove(base, add, p * e);
  }

  lemma WrappedMove(base: int, add: bool, x: int)
    ensures Wrap(base + Towards(add, Wrap(x))) == Wrap(base + Towards(add, x))
  {
    var q := x / WORD;
    assert x == q * WORD + Wrap(x);
    assert base + Towards(add, Wrap(x)) == base + Towards(add, x) + Towards(!add, q) * WORD by {
      assert Towards(!add, q) * WORD == Towards(!add, q * WORD);
    }
    assert Same(base + Towards(add, Wrap(x)), base + Towards(add, x));
    WrapSame(base + Towards(add, Wrap(x)), base + Towards(add, x));
  }

  lemma ScaledOperand(inst: Instruction, rm: Word, carry: bool, rs: Word)
    requires !inst.immediateOperand && !inst.registerShift && inst.shift == Lsl && inst.shiftAmount < 32
    ensures Operand(inst, rm, rs, carry).value == Wrap(Pow2(inst.shiftAmount) * rm)
  {
    hide BitSet, TopBit, ShiftRight, ArithmeticRight, RotateRight, Pow2;
    assert Pow2(inst.shiftAmount) * rm == rm * Pow2(inst.shiftAmount);
    if inst.shiftAmount == 0 {
      UnitShift();
    }
  }

  lemma UnitShift()
    ensures Pow2(0) == 1
  {
  }

  /** One retired instruction keeps every fact true. */
  lemma ObservedSound(f: Facts, inst: Instruction, entry: seq<Word>, before: seq<Word>, after: seq<Word>)
    requires Sound(f, entry, before) && Retires(inst, before, after)
    ensures Sound(Observed(f, inst), entry, after)
  {
    hide KnownUpdate, WrittenRegisters, BaseUpdated, CalculateAlu, Operand, AluWrites, Expression.Added, Wrap;
    var update := if inst.condition != 14 then None else KnownUpdate(inst, f.written);
    if update.Some? && f.values[update.value.reg].Some? {
      var u, known := update.value, f.values[update.value.reg].value;
      UpdateMoves(inst, f.written, entry, before, after);
      if known.Added(u.increment).Some? {
        AddedDenotes(known, u.increment, entry, entry[u.reg]);
        SumMoves(entry[u.reg], known.Denotes(entry), u.increment.Denotes(entry));
      }
    }
  }

  lemma SumMoves(base: int, d: int, i: int)
    ensures Wrap(Wrap(base + d) + i) == Wrap(base + d + i)
  {
  }

  function ObservedAll(f: Facts, p: seq<Instruction>): (g: Facts)
    requires Wellformed(f)
    ensures Wellformed(g)
    decreases |p|
  {
    if p == [] then f else ObservedAll(Observed(f, p[0]), p[1..])
  }

  ghost predicate Execution(p: seq<Instruction>, states: seq<seq<Word>>) {
    |states| == |p| + 1 && (forall i :: 0 <= i <= |p| ==> |states[i]| == 16) &&
    forall i :: 0 <= i < |p| ==> Retired(p, states, i)
  }

  ghost predicate Retired(p: seq<Instruction>, states: seq<seq<Word>>, i: nat)
    requires i < |p| && |states| == |p| + 1
  {
    Retires(p[i], states[i], states[i + 1])
  }

  /** After any sequence of retired instructions every known expression gives
      its register's value from the entry registers modulo 2^32, a register
      reported invariant still has its entry value, and one not reported
      modified, if known at all, is unchanged. */
  lemma {:induction false} RunSound(f: Facts, p: seq<Instruction>, states: seq<seq<Word>>, entry: seq<Word>)
    requires Execution(p, states) && Sound(f, entry, states[0])
    ensures Sound(ObservedAll(f, p), entry, states[|p|])
    decreases |p|
  {
    if p != [] {
      assert Retired(p, states, 0);
      ObservedSound(f, p[0], entry, states[0], states[1]);
      forall i | 0 <= i < |p[1..]|
        ensures Retired(p[1..], states[1..], i)
      {
        assert Retired(p, states, i + 1);
      }
      RunSound(Observed(f, p[0]), p[1..], states[1..], entry);
    }
  }

  /** The compile-scoped analysis object: its fields follow Observed exactly. */
  class Displacements {
    var values: seq<Option<Expression>>
    var modified: set<Reg>
    var written: set<Reg>

    constructor ()
      ensures State() == INITIAL
    {
      values := ENTRY_VALUES;
      modified, written := {}, {};
    }

    function State(): Facts
      reads this
    {
      Facts(values, modified, written)
    }

    /** The current displacement of reg when it needs no index register. */
    function Get(reg: Reg): (d: Option<Int32>)
      requires Wellformed(State())
      reads this
      ensures d.Some? ==> values[reg] == Some(Expression(d.value, 0, None))
    {
      if values[reg].Some? && values[reg].value.index.None? then Some(values[reg].value.constant) else None
    }

    method Observe(inst: Instruction)
      requires Wellformed(State())
      modifies this
      ensures State() == Observed(old(State()), inst)
    {
      hide KnownUpdate, WrittenRegisters;
      var update := if inst.condition != 14 then None else KnownUpdate(inst, written);
      var before := if update.Some? then values[update.value.reg] else None;
      Revoke(WrittenRegisters(inst));
      if before.Some? {
        modified := modified + {update.value.reg};
        values := values[update.value.reg := before.value.Added(update.value.increment)];
      }
      assert values == Observed(old(State()), inst).values;
    }

    /** Every written register loses its expression and its entry value. */
    method Revoke(lost: set<Reg>)
      requires |values| == 16
      modifies `values, `written
      ensures |values| == 16 && forall r: Reg :: values[r] == if r in lost then None else old(values)[r]
      ensures written == old(written) + lost
    {
      var rest := lost;
      while rest != {}
        invariant rest <= lost && |values| == 16
        invariant forall r: Reg :: values[r] == if r in lost - rest then None else old(values)[r]
        invariant written == old(written) + (lost - rest)
        decreases |rest|
      {
        var r :| r in rest;
        values := values[r := None];
        written := written + {r};
        rest := rest - {r};
      }
    }
  }
}
