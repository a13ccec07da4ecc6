/** Dead-flag elimination over a whole trace.

The compiler asks FlagScan at every flag producer and then drops the flag
write, keeps only the carry, or lets a host lowering clobber NZCV. Producers
dropped one after another still leave every boundary and the end of the trace
with the exact architectural state.
 */
module DeadFlags {
  import Words
  import opened Wrappers
  import opened Isa
  import opened GuestMachine
  import IntegerSemantics
  import opened FlagScan

  /** Saturating and halfword multiply lowerings that use NZCV internally. */
  predicate ClobbersInternalFlags(inst: Instruction) {
    if inst.kind.SaturatingArithmetic? then SaturationCompares(inst.opcode, inst.immediate)
    else if inst.kind.Multiply? then
      match inst.opcode
      case 6 => inst.accumulate
      case 7 => inst.accumulate
      case 10 => inst.accumulate
      case 9 => true
      case _ => false
    else false
  }

  /** What the lowering of one instruction may leave wrong in host NZCV. */
  datatype Lowering = Lowering(drop: bool, carryOnly: bool, clobber: bool)

  const CARRY_ONLY: set<Flag> := {N, Z, V}

  function Next(v: View, e: Decoded, live: set<Flag>): Query {
    Query(live, e.pc + e.instruction.size, NextIt(v, e.instruction, e.it), {})
  }

  predicate Dead(v: View, e: Decoded, live: set<Flag>, remaining: nat, ticks: nat) {
    live != {} && Scan(v, Next(v, e, live), remaining, ticks)
  }

  const EXACT := Lowering(false, false, false)

  /** The compiler's choice for instruction e with the limits left after it. A
      PC write or other boundary takes its own lowering and keeps every flag, and
      so does an instruction that is stepped, straddles or closes a cycle. */
  function Choose(v: View, e: Decoded, keep: bool, remaining: nat, ticks: nat): Lowering {
    var inst := e.instruction;
    var effects := EffectsOf(inst);
    if effects.boundary || keep then EXACT
    else
      var drop := inst.setFlags && Dead(v, e, effects.possibleWrite, remaining, ticks);
      Lowering(drop,
               !drop && inst.setFlags && inst.kind.DataProcessing? && IsLogical(inst.opcode) &&
               Dead(v, e, CARRY_ONLY, remaining, ticks),
               ClobbersInternalFlags(inst) && Dead(v, e, ALL_FLAGS, remaining, ticks))
  }

  function Mixed(keep: Flags, scratch: Flags, mask: set<Flag>): Flags {
    Flags(if N in mask then scratch.n else keep.n, if Z in mask then scratch.z else keep.z,
          if C in mask then scratch.c else keep.c, if V in mask then scratch.v else keep.v)
  }

  function ScratchMask(l: Lowering): set<Flag> {
    (if l.carryOnly then CARRY_ONLY else {}) + (if l.clobber then ALL_FLAGS else {})
  }

  /** The emitted body of one instruction: host NZCV bits outside the promise are
      whatever the host sequence left there. A failed condition skips it. */
  function EmittedStep(f: Families, inst: Instruction, l: Lowering, scratch: Flags, t: State): State {
    var lowered := if l.drop then inst.(setFlags := false) else inst;
    var after := Step(f, lowered, t);
    if inst.condition < 15 && ConditionPassed(inst.condition, t.flags)
    then after.(flags := Mixed(after.flags, scratch, ScratchMask(l)))
    else after
  }

  /** The search past e, begun with these trap controls already checked. */
  function Past(v: View, e: Decoded, live: set<Flag>, guarded: Controls): Query {
    Next(v, e, live).(guarded := guarded)
  }

  /** Straight-line decodes with the compiler's limits: each instruction is priced
      and affordable, and what may be crossed falls through to the next entry. */
  ghost predicate Trace(v: View, p: seq<Decoded>, limit: nat, ticks: nat) {
    && |p| <= limit
    && (p == [] ==> limit == 0)
    && (p != [] ==>
          && Decode(v, p[0].pc, p[0].it, false) == Some(p[0])
          && p[0].word.Some? && Cost(v, p[0]) <= ticks
          && if |p| > 1 then
               && (CrossEffects(p[0].instruction, COMPARISON_CONTROLS).boundary ||
                   (p[1].pc == p[0].pc + p[0].instruction.size && p[1].it == NextIt(v, p[0].instruction, p[0].it)))
               && Trace(v, p[1..], limit - 1, ticks - Cost(v, p[0]))
             else
               Stops(v, p[0], limit - 1, ticks - Cost(v, p[0])))
  }

  /** The trace ends after e because a limit is reached, e exposes the state, or
      no search could cross the instruction that would follow. */
  ghost predicate Stops(v: View, e: Decoded, remaining: nat, ticks: nat) {
    || remaining == 0
    || CrossEffects(e.instruction, COMPARISON_CONTROLS).boundary
    || forall live: set<Flag>, guarded: Controls ::
         Inspect(v, Past(v, e, live, guarded)).Terminal? || Inspect(v, Past(v, e, live, guarded)).cost > ticks
  }

  /** The portable machine after the first k instructions. */
  function Run(f: Families, p: seq<Decoded>, s: State, k: nat): State
    requires k <= |p|
  {
    if k == 0 then s else Run(f, p[1..], Step(f, p[0].instruction, s), k - 1)
  }

  /** The emitted code after k instructions; keeps marks instructions that must
      publish their flags, and scratch supplies arbitrary host flags. */
  function EmittedRun(f: Families, v: View, p: seq<Decoded>, limit: nat, ticks: nat,
                      keeps: seq<bool>, scratch: seq<Flags>, t: State, k: nat): State
    requires |scratch| == |keeps| == |p| && Affordable(v, p, limit, ticks) && k <= |p|
  {
    if k == 0 then t
    else
      var left := ticks - Cost(v, p[0]);
      EmittedRun(f, v, p[1..], limit - 1, left, keeps[1..], scratch[1..],
                 EmittedStep(f, p[0].instruction, Choose(v, p[0], keeps[0], limit - 1, left), scratch[0], t), k - 1)
  }

  /** Flags that may be stale after k emitted instructions. */
  function StaleAfter(v: View, p: seq<Decoded>, limit: nat, ticks: nat, keeps: seq<bool>, d: set<Flag>, k: nat): set<Flag>
    requires |keeps| == |p| && Affordable(v, p, limit, ticks) && k <= |p|
  {
    if k == 0 then d
    else
      var left := ticks - Cost(v, p[0]);
      StaleAfter(v, p[1..], limit - 1, left, keeps[1..],
                 Passed(p[0].instruction, Choose(v, p[0], keeps[0], limit - 1, left), d), k - 1)
  }

  /** What one instruction leaves stale; at a boundary nothing is. */
  function Passed(inst: Instruction, l: Lowering, d: set<Flag>): set<Flag> {
    if EffectsOf(inst).boundary then {} else Stale(inst, l, d)
  }

  predicate Affordable(v: View, p: seq<Decoded>, limit: nat, ticks: nat) {
    && |p| <= limit
    && (p != [] ==> p[0].word.Some? && Cost(v, p[0]) <= ticks && Affordable(v, p[1..], limit - 1, ticks - Cost(v, p[0])))
  }

  lemma {:induction false} TraceAffordable(v: View, p: seq<Decoded>, limit: nat, ticks: nat)
    requires Trace(v, p, limit, ticks)
    ensures Affordable(v, p, limit, ticks)
  {
    if |p| > 1 {
      TraceAffordable(v, p[1..], limit - 1, ticks - Cost(v, p[0]));
    }
  }

  /** Two searches that succeed at one point succeed together. */
  lemma {:induction false} ScanUnion(v: View, q: Query, a: set<Flag>, b: set<Flag>, n: nat, t: nat)
    requires a == {} || Scan(v, q.(live := a), n, t)
    requires b == {} || Scan(v, q.(live := b), n, t)
    requires a + b != {}
    ensures Scan(v, q.(live := a + b), n, t)
    decreases n
  {
    hide EffectsOf;
    if a == {} {
      assert a + b == b;
    } else if b == {} {
      assert a + b == a;
    } else {
      var i, j, k := Inspect(v, q.(live := a)), Inspect(v, q.(live := b)), Inspect(v, q.(live := a + b));
      InspectUnion(v, q, a, b);
      if k.next.live != {} {
        ScanUnion(v, k.next, i.next.live, j.next.live, n - 1, t - k.cost);
      }
    }
  }

  lemma InspectUnion(v: View, q: Query, a: set<Flag>, b: set<Flag>)
    requires Inspect(v, q.(live := a)).Advance? && Inspect(v, q.(live := b)).Advance?
    ensures var i, j := Inspect(v, q.(live := a)), Inspect(v, q.(live := b));
            i.next == j.next.(live := i.next.live) && i.cost == j.cost &&
            Inspect(v, q.(live := a + b)) == Advance(i.cost, i.next.(live := i.next.live + j.next.live))
  {
    hide EffectsOf;
    var effects := CrossEffects(Decode(v, q.pc, q.it, false).value.instruction, q.guarded);
    assert effects.read * (a + b) == effects.read * a + effects.read * b;
    assert a + b - effects.guaranteedWrite == (a - effects.guaranteedWrite) + (b - effects.guaranteedWrite);
  }

  lemma AgreeTransitive(s: State, t: State, u: State, a: set<Flag>, b: set<Flag>)
    requires Agree(s, t, a) && Agree(t, u, b)
    ensures Agree(s, u, a + b)
  {
  }

  /** Dropping the flag write changes at most the flags it might have written. */
  lemma DropSound(f: Families, inst: Instruction, t: State)
    requires !EffectsOf(inst).boundary
    ensures Agree(Step(f, inst, t), Step(f, inst.(setFlags := false), t), EffectsOf(inst).possibleWrite)
  {
    var dropped := inst.(setFlags := false);
    assert EffectsOf(dropped).possibleWrite <= EffectsOf(inst).possibleWrite;
    assert EffectsOf(inst).read * {} == {} && EffectsOf(dropped).read * {} == {};
    EffectsSound(f, inst, t, t, {});
    EffectsSound(f, dropped, t, t, {});
    FlagsByName(Step(f, inst, t).flags, t.flags, EffectsOf(inst).possibleWrite);
    FlagsByName(Step(f, dropped, t).flags, t.flags, EffectsOf(inst).possibleWrite);
    DropValues(f, inst, t);
  }

  lemma DropValues(f: Families, inst: Instruction, t: State)
    requires !EffectsOf(inst).boundary
    ensures var a, b := Step(f, inst, t), Step(f, inst.(setFlags := false), t);
            a.regs == b.regs && a.rest == b.rest
  {
    DropBoundary(inst);
    DropExecute(f, inst, t);
    hide EffectsOf, Execute, ConditionPassed;
  }

  lemma DropExecute(f: Families, inst: Instruction, t: State)
    requires !EffectsOf(inst).boundary && !EffectsOf(inst.(setFlags := false)).boundary
    ensures var a, b := Execute(f, inst, t), Execute(f, inst.(setFlags := false), t);
            a.regs == b.regs && a.rest == b.rest
  {
    hide EffectsOf, DataProcess, SetRegister, Register, FlagsOfWord, Body;
    DropBody(inst);
    if inst.kind.DataProcessing? {
      DropProcess(f, inst, t);
    }
  }

  lemma DropBody(inst: Instruction)
    ensures Body(inst.(setFlags := false)) == Body(inst)
  {
  }

  lemma DropBoundary(inst: Instruction)
    requires !EffectsOf(inst).boundary
    ensures !EffectsOf(inst.(setFlags := false)).boundary
  {
  }

  /** The data result does not depend on whether flags are written. */
  lemma DropProcess(f: Families, inst: Instruction, t: State)
    ensures var a, b := DataProcess(f, inst, t), DataProcess(f, inst.(setFlags := false), t);
            a.regs == b.regs && a.rest == b.rest
  {
    hide SetRegister, Register, IntegerSemantics.Operand, IntegerSemantics.CalculateAlu;
    DropBody(inst);
    hide Body;
    var rm, rs, a := f.operand(Body(inst), inst.rm, t.regs), Register(t.regs, inst.rs), f.operand(Body(inst), inst.rn, t.regs);
    DropOperand(inst, rm, rs, t.flags.c);
    DropAlu(inst.opcode, inst.setFlags, a, IntegerSemantics.Operand(inst, rm, rs, t.flags.c), t.flags);
  }

  lemma DropOperand(inst: Instruction, rm: Words.Word, rs: Words.Word, carry: bool)
    ensures IntegerSemantics.Operand(inst.(setFlags := false), rm, rs, carry) == IntegerSemantics.Operand(inst, rm, rs, carry)
  {
    hide IntegerSemantics.Shift;
  }

  lemma DropAlu(opcode: nat, sets: bool, a: Words.Word, shifted: IntegerSemantics.ShiftResult, flags: Flags)
    ensures IntegerSemantics.CalculateAlu(opcode, false, a, shifted, flags).value ==
            IntegerSemantics.CalculateAlu(opcode, sets, a, shifted, flags).value
  {
    hide IntegerSemantics.Arithmetic, IntegerSemantics.LogicalValue;
  }

  lemma FlagsByName(a: Flags, b: Flags, mask: set<Flag>)
    requires forall x: Flag :: x !in mask ==> a.Get(x) == b.Get(x)
    ensures (N in mask || a.n == b.n) && (Z in mask || a.z == b.z) && (C in mask || a.c == b.c) && (V in mask || a.v == b.v)
  {
    assert a.Get(N) == a.n && a.Get(Z) == a.z && a.Get(C) == a.c && a.Get(V) == a.v;
    assert b.Get(N) == b.n && b.Get(Z) == b.z && b.Get(C) == b.c && b.Get(V) == b.v;
  }

  /** Flags that may differ after one emitted instruction. */
  function Stale(inst: Instruction, l: Lowering, d: set<Flag>): set<Flag> {
    (d - EffectsOf(inst).guaranteedWrite) + ((if l.drop then EffectsOf(inst).possibleWrite else {}) + ScratchMask(l))
  }

  lemma EmittedAgrees(f: Families, inst: Instruction, l: Lowering, scratch: Flags, s: State, t: State, d: set<Flag>)
    requires !EffectsOf(inst).boundary && EffectsOf(inst).read * d == {} && Agree(s, t, d)
    ensures Agree(Step(f, inst, s), EmittedStep(f, inst, l, scratch, t), Stale(inst, l, d))
  {
    hide EffectsOf, Execute;
    var effects := EffectsOf(inst);
    EffectsSound(f, inst, s, t, d);
    var plain := Step(f, inst, t);
    var lowered := if l.drop then Step(f, inst.(setFlags := false), t) else plain;
    var dropped := if l.drop then effects.possibleWrite else {};
    if l.drop {
      DropSound(f, inst, t);
    }
    assert Agree(plain, lowered, dropped);
    assert Agree(lowered, EmittedStep(f, inst, l, scratch, t), ScratchMask(l));
    AgreeTransitive(plain, lowered, EmittedStep(f, inst, l, scratch, t), dropped, ScratchMask(l));
    AgreeTransitive(Step(f, inst, s), plain, EmittedStep(f, inst, l, scratch, t),
                    d - effects.guaranteedWrite, dropped + ScratchMask(l));
  }

  /** Flags in d are stale at the head of p and overwritten before they are seen. */
  ghost predicate Settles(v: View, p: seq<Decoded>, limit: nat, ticks: nat, d: set<Flag>) {
    d == {} || (p != [] && Scan(v, Query(d, p[0].pc, p[0].it, {}), limit, ticks))
  }

  /** Nothing is stale at a boundary or at the end of the trace. */
  lemma SettledAtBoundary(v: View, p: seq<Decoded>, limit: nat, ticks: nat, d: set<Flag>)
    requires Trace(v, p, limit, ticks) && Settles(v, p, limit, ticks, d)
    requires p == [] || EffectsOf(p[0].instruction).boundary
    ensures d == {}
  {
  }

  /** Stale flags the instruction neither reads nor surely overwrites go on. */
  lemma KeptSettles(v: View, p: seq<Decoded>, limit: nat, ticks: nat, d: set<Flag>)
    requires p != [] && Trace(v, p, limit, ticks) && Settles(v, p, limit, ticks, d)
    requires !EffectsOf(p[0].instruction).boundary
    ensures EffectsOf(p[0].instruction).read * d == {}
    ensures var left, kept := ticks - Cost(v, p[0]), d - EffectsOf(p[0].instruction).guaranteedWrite;
            kept == {} || Scan(v, Next(v, p[0], kept), limit - 1, left)
  {
    hide EffectsOf, NextIt;
    assert ControlsAfter(p[0].instruction, {}) == {};
  }

  /** Whatever the compiler decides to leave wrong is overwritten before it is seen. */
  lemma ChosenSettles(v: View, e: Decoded, keep: bool, remaining: nat, ticks: nat)
    ensures var l := Choose(v, e, keep, remaining, ticks);
            && (l.drop ==> Dead(v, e, EffectsOf(e.instruction).possibleWrite, remaining, ticks))
            && (l.carryOnly ==> Dead(v, e, CARRY_ONLY, remaining, ticks))
            && (l.clobber ==> Dead(v, e, ALL_FLAGS, remaining, ticks))
  {
    hide EffectsOf, Dead, ClobbersInternalFlags, CARRY_ONLY, ALL_FLAGS;
  }

  lemma AllSettle(v: View, e: Decoded, kept: set<Flag>, l: Lowering, written: set<Flag>, n: nat, t: nat)
    requires kept == {} || Scan(v, Next(v, e, kept), n, t)
    requires l.drop ==> Dead(v, e, written, n, t)
    requires l.carryOnly ==> Dead(v, e, CARRY_ONLY, n, t)
    requires l.clobber ==> Dead(v, e, ALL_FLAGS, n, t)
    ensures var stale := kept + ((if l.drop then written else {}) + ScratchMask(l));
            stale == {} || Scan(v, Next(v, e, stale), n, t)
  {
    var next := Next(v, e, {});
    var dropped := if l.drop then written else {};
    var carry, clobber := if l.carryOnly then CARRY_ONLY else {}, if l.clobber then ALL_FLAGS else {};
    hide CARRY_ONLY, ALL_FLAGS, Scan;
    Joined(v, next, carry, clobber, n, t);
    Joined(v, next, dropped, carry + clobber, n, t);
    Joined(v, next, kept, dropped + (carry + clobber), n, t);
  }

  /** The flags an emitted instruction leaves stale settle in the rest of the trace. */
  lemma StaleSettles(v: View, p: seq<Decoded>, keep: bool, limit: nat, ticks: nat, d: set<Flag>)
    requires p != [] && Trace(v, p, limit, ticks) && Settles(v, p, limit, ticks, d)
    requires !EffectsOf(p[0].instruction).boundary
    ensures EffectsOf(p[0].instruction).read * d == {}
    ensures var left := ticks - Cost(v, p[0]);
            Settles(v, p[1..], limit - 1, left, Stale(p[0].instruction, Choose(v, p[0], keep, limit - 1, left), d))
  {
    hide EffectsOf, Scan, Dead, Choose, ScratchMask;
    var e, left := p[0], ticks - Cost(v, p[0]);
    KeptSettles(v, p, limit, ticks, d);
    ChosenSettles(v, e, keep, limit - 1, left);
    var l := Choose(v, e, keep, limit - 1, left);
    AllSettle(v, e, d - EffectsOf(e.instruction).guaranteedWrite, l, EffectsOf(e.instruction).possibleWrite, limit - 1, left);
    StaleAhead(v, p, limit, ticks, Stale(e.instruction, l, d));
  }

  /** What is still stale after the first instruction finds a next one to settle in. */
  lemma StaleAhead(v: View, p: seq<Decoded>, limit: nat, ticks: nat, stale: set<Flag>)
    requires p != [] && Trace(v, p, limit, ticks) && !EffectsOf(p[0].instruction).boundary
    requires var left := ticks - Cost(v, p[0]); stale == {} || Scan(v, Next(v, p[0], stale), limit - 1, left)
    ensures Settles(v, p[1..], limit - 1, ticks - Cost(v, p[0]), stale)
  {
    hide EffectsOf, NextIt;
    assert Past(v, p[0], stale, {}) == Next(v, p[0], stale);
  }

  lemma Joined(v: View, q: Query, a: set<Flag>, b: set<Flag>, n: nat, t: nat)
    requires a == {} || Scan(v, q.(live := a), n, t)
    requires b == {} || Scan(v, q.(live := b), n, t)
    ensures a + b == {} || Scan(v, q.(live := a + b), n, t)
  {
    if a + b != {} {
      ScanUnion(v, q, a, b, n, t);
    }
  }

  lemma BoundaryExact(f: Families, inst: Instruction, scratch: Flags, s: State)
    ensures EmittedStep(f, inst, EXACT, scratch, s) == Step(f, inst, s)
  {
  }

  /** One emitted instruction of a trace: the states agree but for what is stale,
      and what is stale settles in the rest. */
  lemma StepAgrees(f: Families, v: View, p: seq<Decoded>, keep: bool, limit: nat, ticks: nat,
                   scratch: Flags, s: State, t: State, d: set<Flag>)
    requires p != [] && Trace(v, p, limit, ticks) && Agree(s, t, d) && Settles(v, p, limit, ticks, d)
    ensures var e, left := p[0], ticks - Cost(v, p[0]);
            var l := Choose(v, e, keep, limit - 1, left);
            Agree(Step(f, e.instruction, s), EmittedStep(f, e.instruction, l, scratch, t), Passed(e.instruction, l, d)) &&
            Settles(v, p[1..], limit - 1, left, Passed(e.instruction, l, d))
  {
    hide EffectsOf, Step, EmittedStep;
    var e, left := p[0], ticks - Cost(v, p[0]);
    var l := Choose(v, e, keep, limit - 1, left);
    if EffectsOf(e.instruction).boundary {
      SettledAtBoundary(v, p, limit, ticks, d);
      BoundaryExact(f, e.instruction, scratch, s);
    } else {
      StaleSettles(v, p, keep, limit, ticks, d);
      EmittedAgrees(f, e.instruction, l, scratch, s, t, d);
    }
  }

  /** The rest of a trace is a trace. */
  lemma TraceRest(v: View, p: seq<Decoded>, limit: nat, ticks: nat)
    requires p != [] && Trace(v, p, limit, ticks)
    ensures Cost(v, p[0]) <= ticks && limit >= 1
    ensures |p| > 1 ==> Trace(v, p[1..], limit - 1, ticks - Cost(v, p[0]))
  {
  }

  /** Whatever the host leaves in dropped flags, every prefix of the emitted trace
      has the portable registers, and the portable flags but for the stale ones;
      nothing is stale at a boundary or at the end of the trace. */
  lemma {:induction false} EliminationFrom(f: Families, v: View, p: seq<Decoded>, limit: nat, ticks: nat, keeps: seq<bool>,
                                           scratch: seq<Flags>, s: State, t: State, d: set<Flag>, k: nat)
    requires Trace(v, p, limit, ticks) && |scratch| == |keeps| == |p| && k <= |p| && Affordable(v, p, limit, ticks)
    requires Agree(s, t, d) && Settles(v, p, limit, ticks, d)
    ensures var stale := StaleAfter(v, p, limit, ticks, keeps, d, k);
            && Agree(Run(f, p, s, k), EmittedRun(f, v, p, limit, ticks, keeps, scratch, t, k), stale)
            && (k == |p| || EffectsOf(p[k].instruction).boundary ==> stale == {})
            && (k < |p| ==> EffectsOf(p[k].instruction).read * stale == {})
  {
    hide EffectsOf, Step, EmittedStep, Choose, Passed;
    if k == 0 {
      if p == [] || EffectsOf(p[0].instruction).boundary {
        SettledAtBoundary(v, p, limit, ticks, d);
      } else {
        KeptSettles(v, p, limit, ticks, d);
      }
    } else {
      var e, left := p[0], ticks - Cost(v, p[0]);
      var l := Choose(v, e, keeps[0], limit - 1, left);
      StepAgrees(f, v, p, keeps[0], limit, ticks, scratch[0], s, t, d);
      TraceRest(v, p, limit, ticks);
      if |p| == 1 {
        assert p[1..] == [];
      } else {
        EliminationFrom(f, v, p[1..], limit - 1, left, keeps[1..], scratch[1..], Step(f, e.instruction, s),
                        EmittedStep(f, e.instruction, l, scratch[0], t), Passed(e.instruction, l, d), k - 1);
      }
    }
  }

  /** Dead-flag elimination preserves meaning: whatever the host leaves in dropped
      flags, every prefix of the emitted trace has the portable registers, and
      every boundary and the end of the trace has the portable state. */
  lemma Elimination(f: Families, v: View, p: seq<Decoded>, limit: nat, ticks: nat,
                    keeps: seq<bool>, scratch: seq<Flags>, s: State, k: nat)
    requires Trace(v, p, limit, ticks) && |scratch| == |keeps| == |p| && k <= |p|
    ensures Affordable(v, p, limit, ticks)
    ensures var a, b := Run(f, p, s, k), EmittedRun(f, v, p, limit, ticks, keeps, scratch, s, k);
            && a.regs == b.regs && a.rest == b.rest
            && (k == |p| || EffectsOf(p[k].instruction).boundary ==> a == b)
  {
    hide Run, EmittedRun, StaleAfter, EffectsOf, Trace;
    TraceAffordable(v, p, limit, ticks);
    EliminationFrom(f, v, p, limit, ticks, keeps, scratch, s, s, {}, k);
  }

  /** Every instruction of the emitted trace is skipped or executed as the portable
      machine does it: no condition reads a stale flag. */
  lemma SkipsAlike(f: Families, v: View, p: seq<Decoded>, limit: nat, ticks: nat,
                   keeps: seq<bool>, scratch: seq<Flags>, s: State, k: nat)
    requires Trace(v, p, limit, ticks) && |scratch| == |keeps| == |p| && k < |p| && p[k].instruction.condition < 15
    ensures Affordable(v, p, limit, ticks)
    ensures ConditionPassed(p[k].instruction.condition, Run(f, p, s, k).flags) ==
            ConditionPassed(p[k].instruction.condition, EmittedRun(f, v, p, limit, ticks, keeps, scratch, s, k).flags)
  {
    hide Run, EmittedRun, StaleAfter, Trace, ConditionPassed;
    TraceAffordable(v, p, limit, ticks);
    EliminationFrom(f, v, p, limit, ticks, keeps, scratch, s, s, {}, k);
    var inst, stale := p[k].instruction, StaleAfter(v, p, limit, ticks, keeps, {}, k);
    ConditionIsRead(inst);
    hide EffectsOf, ConditionReads, Agree;
    assert ConditionReads(inst.condition) * stale <= EffectsOf(inst).read * stale;
    SkipAgrees(inst, Run(f, p, s, k), EmittedRun(f, v, p, limit, ticks, keeps, scratch, s, k), stale);
  }

  lemma ConditionIsRead(inst: Instruction)
    ensures ConditionReads(inst.condition) <= EffectsOf(inst).read
  {
  }
}
