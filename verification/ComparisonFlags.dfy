/** Floating comparisons whose lowering clobbers NZCV.

A comparison tests its trap controls and leaves the trace at its own PC when one
is set. Past that test its host sequence may overwrite NZCV, if a search that may
cross further comparisons finds every bit dead, and a VMRS right behind it may
take over the host's comparison result instead of loading it.
 */
module ComparisonFlags {
  import opened Isa
  import opened GuestMachine
  import opened FlagScan
  import opened DeadFlags
  import Words

  /** What comparisons do to the state outside core registers, and which such states
      have no trap control set that a comparison tests. */
  datatype Floating = Floating(clear: int -> bool, compared: (Instruction, seq<Words.Word>, int) -> int)

  predicate IsComparison(inst: Instruction) {
    inst.kind.FloatingComparison? && inst.condition != 15
  }

  predicate WritesControls(inst: Instruction) {
    inst.kind.FloatingSystem? && !inst.kind.systemToCore
  }

  /** An unconditional VMRS of the comparison flags into NZCV. */
  predicate TakesComparison(inst: Instruction) {
    inst.kind.FloatingSystem? && inst.kind.systemToCore && inst.kind.systemCore == 15 && inst.condition == 14
  }

  /** With its controls clear a comparison touches no core register and no NZCV bit. */
  ghost predicate Quiet(f: Families, h: Floating, inst: Instruction, s: State) {
    IsComparison(inst) && h.clear(s.rest) ==>
      f.boundary(inst, s) == s.(rest := h.compared(inst, s.regs, s.rest)) && h.clear(h.compared(inst, s.regs, s.rest))
  }

  /** Only a write of the status register sets trap controls. */
  ghost predicate Clears(f: Families, h: Floating, inst: Instruction, s: State) {
    !WritesControls(inst) && h.clear(s.rest) ==> h.clear(Step(f, inst, s).rest)
  }

  ghost predicate Respects(f: Families, h: Floating) {
    (forall inst: Instruction, s: State :: Quiet(f, h, inst, s)) && (forall inst: Instruction, s: State :: Clears(f, h, inst, s))
  }

  predicate Executes(inst: Instruction, s: State) {
    inst.condition < 15 && ConditionPassed(inst.condition, s.flags)
  }

  /** The comparison's lowering need not preserve NZCV. */
  predicate Clobbers(v: View, e: Decoded, keep: bool, remaining: nat, ticks: nat) {
    IsComparison(e.instruction) && !keep && Scan(v, Past(v, e, ALL_FLAGS, COMPARISON_CONTROLS), remaining, ticks)
  }

  /** The emitted body; inherits says that the instruction before it was an
      unconditional comparison that left its result in host NZCV. */
  function EmittedOne(f: Families, v: View, e: Decoded, keep: bool, inherits: bool, remaining: nat, ticks: nat,
                      scratch: Flags, t: State): State
  {
    var inst := e.instruction;
    if IsComparison(inst) then
      var after := Step(f, inst, t);
      if Executes(inst, t) && Clobbers(v, e, keep, remaining, ticks)
      then after.(flags := f.comparisonFlags(after.rest)) else after
    else if inherits && TakesComparison(inst) then Step(f, inst, t).(flags := t.flags)
    else EmittedStep(f, inst, Choose(v, e, keep, remaining, ticks), scratch, t)
  }

  predicate Inherits(v: View, e: Decoded, keep: bool, remaining: nat, ticks: nat) {
    Clobbers(v, e, keep, remaining, ticks) && e.instruction.condition == 14
  }

  function EmittedAll(f: Families, v: View, p: seq<Decoded>, limit: nat, ticks: nat, keeps: seq<bool>, inherits: bool,
                      scratch: seq<Flags>, t: State, k: nat): State
    requires |scratch| == |keeps| == |p| && Affordable(v, p, limit, ticks) && k <= |p|
  {
    if k == 0 then t
    else
      var left := ticks - Cost(v, p[0]);
      EmittedAll(f, v, p[1..], limit - 1, left, keeps[1..], Inherits(v, p[0], keeps[0], limit - 1, left), scratch[1..],
                 EmittedOne(f, v, p[0], keeps[0], inherits, limit - 1, left, scratch[0], t), k - 1)
  }

  /** No comparison among the first k instructions found a trap control set. */
  predicate Reaches(f: Families, h: Floating, p: seq<Decoded>, s: State, k: nat)
    requires k <= |p|
  {
    k == 0 ||
    ((IsComparison(p[0].instruction) && Executes(p[0].instruction, s) ==> h.clear(s.rest)) &&
     Reaches(f, h, p[1..], Step(f, p[0].instruction, s), k - 1))
  }

  /** Flags that may be stale: those any boundary would expose, and those that only a
      comparison's lowering clobbered, which further comparisons do not expose. */
  datatype Marks = Marks(plain: set<Flag>, compared: set<Flag>) {
    function All(): set<Flag> {
      plain + compared
    }
  }

  const NO_MARKS := Marks({}, {})

  function Marked(v: View, e: Decoded, keep: bool, remaining: nat, ticks: nat, m: Marks): Marks {
    var inst := e.instruction;
    if IsComparison(inst) then Marks({}, if Clobbers(v, e, keep, remaining, ticks) then ALL_FLAGS else m.compared)
    else if EffectsOf(inst).boundary then NO_MARKS
    else
      var stale, kept := Stale(inst, Choose(v, e, keep, remaining, ticks), m.plain), m.compared - EffectsOf(inst).guaranteedWrite;
      if WritesControls(inst) then Marks(stale + kept, {}) else Marks(stale, kept)
  }

  /** Both kinds of stale flags are overwritten before they are seen. */
  ghost predicate Settled(v: View, p: seq<Decoded>, limit: nat, ticks: nat, m: Marks) {
    && Settles(v, p, limit, ticks, m.plain)
    && (m.compared == {} ||
        (p != [] && Scan(v, Query(m.compared, p[0].pc, p[0].it, COMPARISON_CONTROLS), limit, ticks)))
  }

  /** The states agree but for stale flags; a comparison's only while no trap control is set. */
  ghost predicate Same(h: Floating, s: State, t: State, m: Marks) {
    Agree(s, t, m.All()) && (h.clear(s.rest) || Agree(s, t, m.plain))
  }

  /** What follows an instruction a search may cross is where its flags settle. */
  lemma Ahead(v: View, p: seq<Decoded>, limit: nat, ticks: nat, stale: set<Flag>, guarded: Controls)
    requires p != [] && Trace(v, p, limit, ticks) && !CrossEffects(p[0].instruction, COMPARISON_CONTROLS).boundary
    requires stale == {} || Scan(v, Past(v, p[0], stale, guarded), limit - 1, ticks - Cost(v, p[0]))
    ensures stale == {} || (|p| > 1 && Scan(v, Query(stale, p[1].pc, p[1].it, guarded), limit - 1, ticks - Cost(v, p[0])))
  {
    hide EffectsOf, NextIt;
  }

  /** A search with the comparison controls checked crosses the instruction. */
  lemma ComparedKept(v: View, p: seq<Decoded>, limit: nat, ticks: nat, m: Marks)
    requires p != [] && Trace(v, p, limit, ticks) && Settled(v, p, limit, ticks, m) && m.compared != {}
    ensures var effects := CrossEffects(p[0].instruction, COMPARISON_CONTROLS);
            var kept := m.compared - effects.guaranteedWrite;
            && !effects.boundary && effects.read * m.compared == {}
            && (kept == {} || Scan(v, Past(v, p[0], kept, ControlsAfter(p[0].instruction, COMPARISON_CONTROLS)), limit - 1,
                                   ticks - Cost(v, p[0])))
  {
    hide EffectsOf, NextIt;
  }

  lemma ComparisonEffects(inst: Instruction)
    requires IsComparison(inst)
    ensures EffectsOf(inst) == FlagEffects(ConditionReads(inst.condition), {}, {}, true)
    ensures CrossEffects(inst, COMPARISON_CONTROLS) == EffectsOf(inst).(boundary := false)
    ensures ControlsAfter(inst, COMPARISON_CONTROLS) == COMPARISON_CONTROLS
  {
  }

  lemma OrdinaryEffects(inst: Instruction)
    requires !IsComparison(inst)
    ensures CrossEffects(inst, COMPARISON_CONTROLS) == EffectsOf(inst)
    ensures ControlsAfter(inst, COMPARISON_CONTROLS) == if WritesControls(inst) then {} else COMPARISON_CONTROLS
  {
  }

  /** At a comparison only what comparisons clobbered is stale, and all of it settles. */
  lemma ComparisonSettles(v: View, p: seq<Decoded>, keep: bool, limit: nat, ticks: nat, m: Marks)
    requires p != [] && Trace(v, p, limit, ticks) && Settled(v, p, limit, ticks, m) && IsComparison(p[0].instruction)
    ensures m.plain == {} && ConditionReads(p[0].instruction.condition) * m.compared == {}
    ensures var left := ticks - Cost(v, p[0]);
            Settled(v, p[1..], limit - 1, left, Marked(v, p[0], keep, limit - 1, left, m))
  {
    hide EffectsOf, NextIt, Scan, ALL_FLAGS, CrossEffects;
    ComparisonEffects(p[0].instruction);
    SettledAtBoundary(v, p, limit, ticks, m.plain);
    var left := ticks - Cost(v, p[0]);
    if m.compared != {} {
      ComparedKept(v, p, limit, ticks, m);
      assert m.compared - {} == m.compared;
    }
    Ahead(v, p, limit, ticks, Marked(v, p[0], keep, limit - 1, left, m).compared, COMPARISON_CONTROLS);
  }

  /** Elsewhere both kinds settle, and a write of the status register merges them. */
  lemma OrdinarySettles(v: View, p: seq<Decoded>, keep: bool, limit: nat, ticks: nat, m: Marks)
    requires p != [] && Trace(v, p, limit, ticks) && Settled(v, p, limit, ticks, m)
    requires !IsComparison(p[0].instruction) && !EffectsOf(p[0].instruction).boundary
    ensures EffectsOf(p[0].instruction).read * m.All() == {}
    ensures var left := ticks - Cost(v, p[0]);
            Settled(v, p[1..], limit - 1, left, Marked(v, p[0], keep, limit - 1, left, m))
  {
    hide EffectsOf, NextIt, Scan, Choose, Stale, CrossEffects;
    OrdinaryEffects(p[0].instruction);
    var left, inst := ticks - Cost(v, p[0]), p[0].instruction;
    StaleSettles(v, p, keep, limit, ticks, m.plain);
    var kept, after := m.compared - EffectsOf(inst).guaranteedWrite, ControlsAfter(inst, COMPARISON_CONTROLS);
    if m.compared != {} {
      ComparedKept(v, p, limit, ticks, m);
    }
    Ahead(v, p, limit, ticks, kept, after);
    if WritesControls(inst) {
      var stale := Stale(inst, Choose(v, p[0], keep, limit - 1, left), m.plain);
      if p[1..] != [] {
        Joined(v, Query({}, p[1].pc, p[1].it, {}), stale, kept, limit - 1, left);
      }
    }
  }

  /** A boundary other than a comparison finds nothing stale. */
  lemma BoundarySettles(v: View, p: seq<Decoded>, limit: nat, ticks: nat, m: Marks)
    requires p != [] && Trace(v, p, limit, ticks) && Settled(v, p, limit, ticks, m)
    requires !IsComparison(p[0].instruction) && EffectsOf(p[0].instruction).boundary
    ensures m == NO_MARKS
  {
    hide EffectsOf, NextIt, Scan, CrossEffects;
    OrdinaryEffects(p[0].instruction);
    SettledAtBoundary(v, p, limit, ticks, m.plain);
    if m.compared != {} {
      ComparedKept(v, p, limit, ticks, m);
    }
  }

  lemma AgreeMore(s: State, t: State, a: set<Flag>, b: set<Flag>)
    requires Agree(s, t, a) && a <= b
    ensures Agree(s, t, b)
  {
  }

  /** A comparison that is executed past its test changes only the opaque state. */
  lemma ComparisonStep(f: Families, h: Floating, inst: Instruction, s: State)
    requires Respects(f, h) && IsComparison(inst) && (Executes(inst, s) ==> h.clear(s.rest))
    ensures Step(f, inst, s) == if Executes(inst, s) then s.(rest := h.compared(inst, s.regs, s.rest)) else s
    ensures Executes(inst, s) ==> h.clear(h.compared(inst, s.regs, s.rest))
  {
    hide EffectsOf;
    ComparisonEffects(inst);
    assert Quiet(f, h, inst, s);
  }

  lemma ComparisonSkips(inst: Instruction, s: State, t: State, mask: set<Flag>)
    requires Agree(s, t, mask) && ConditionReads(inst.condition) * mask == {}
    ensures Executes(inst, s) == Executes(inst, t)
  {
    hide ConditionReads, ConditionPassed;
    if inst.condition < 15 {
      SkipAgrees(inst, s, t, mask);
    }
  }

  /** A comparison that executes past its test, or is skipped. */
  lemma ComparisonAgrees(f: Families, h: Floating, v: View, e: Decoded, keep: bool, inherits: bool, remaining: nat, ticks: nat,
                         scratch: Flags, s: State, t: State, m: Marks)
    requires Respects(f, h) && IsComparison(e.instruction) && Same(h, s, t, m)
    requires m.plain == {} && ConditionReads(e.instruction.condition) * m.compared == {}
    requires Executes(e.instruction, s) ==> h.clear(s.rest)
    ensures var next := EmittedOne(f, v, e, keep, inherits, remaining, ticks, scratch, t);
            && Same(h, Step(f, e.instruction, s), next, Marked(v, e, keep, remaining, ticks, m))
            && (Inherits(v, e, keep, remaining, ticks) ==> next.flags == f.comparisonFlags(next.rest))
  {
    var inst := e.instruction;
    assert inst.condition == 14 ==> Executes(inst, t);
    hide EffectsOf, ConditionReads, Executes, Scan, Respects, Step;
    assert m.All() == m.compared;
    ComparisonSkips(inst, s, t, m.compared);
    ComparisonStep(f, h, inst, s);
    ComparisonStep(f, h, inst, t);
  }

  /** One emitted instruction that is no comparison: agreement up to any stale set. */
  lemma OrdinaryStep(f: Families, v: View, e: Decoded, keep: bool, inherits: bool, remaining: nat, ticks: nat,
                     scratch: Flags, s: State, t: State, d: set<Flag>)
    requires !IsComparison(e.instruction) && !EffectsOf(e.instruction).boundary && Agree(s, t, d)
    requires EffectsOf(e.instruction).read * d == {} && (inherits ==> t.flags == f.comparisonFlags(t.rest))
    ensures Agree(Step(f, e.instruction, s), EmittedOne(f, v, e, keep, inherits, remaining, ticks, scratch, t),
                  Stale(e.instruction, Choose(v, e, keep, remaining, ticks), d))
  {
    var inst, l := e.instruction, Choose(v, e, keep, remaining, ticks);
    if inherits && TakesComparison(inst) {
      TakenFlags(f, inst, t);
      hide EffectsOf, Step, EmittedStep, Choose;
      EffectsSound(f, inst, s, t, d);
      AgreeMore(Step(f, inst, s), Step(f, inst, t), d - EffectsOf(inst).guaranteedWrite, Stale(inst, l, d));
    } else {
      hide EffectsOf, Step, EmittedStep, Choose, Stale, Agree;
      EmittedAgrees(f, inst, l, scratch, s, t, d);
    }
  }

  lemma TakenFlags(f: Families, inst: Instruction, t: State)
    requires TakesComparison(inst) && !EffectsOf(inst).boundary && t.flags == f.comparisonFlags(t.rest)
    ensures Step(f, inst, t).(flags := t.flags) == Step(f, inst, t)
  {
    hide EffectsOf;
  }

  /** Any other instruction that searches may cross. */
  lemma OrdinaryAgrees(f: Families, h: Floating, v: View, e: Decoded, keep: bool, inherits: bool, remaining: nat, ticks: nat,
                       scratch: Flags, s: State, t: State, m: Marks)
    requires Respects(f, h) && !IsComparison(e.instruction) && !EffectsOf(e.instruction).boundary && Same(h, s, t, m)
    requires EffectsOf(e.instruction).read * m.All() == {} && (inherits ==> t.flags == f.comparisonFlags(t.rest))
    ensures var next := EmittedOne(f, v, e, keep, inherits, remaining, ticks, scratch, t);
            Same(h, Step(f, e.instruction, s), next, Marked(v, e, keep, remaining, ticks, m))
  {
    hide EffectsOf, Step, EmittedOne, Choose, Agree, ScratchMask, Quiet;
    var inst, l := e.instruction, Choose(v, e, keep, remaining, ticks);
    OrdinaryStep(f, v, e, keep, inherits, remaining, ticks, scratch, s, t, m.All());
    var marks := Marked(v, e, keep, remaining, ticks, m);
    assert Stale(inst, l, m.All()) == marks.All() && (marks.compared == {} ==> marks.All() == marks.plain);
    assert Clears(f, h, inst, s);
    if Agree(s, t, m.plain) {
      assert EffectsOf(inst).read * m.plain <= EffectsOf(inst).read * m.All();
      OrdinaryStep(f, v, e, keep, inherits, remaining, ticks, scratch, s, t, m.plain);
    }
  }

  /** One instruction of the emitted trace. */
  lemma OneAgrees(f: Families, h: Floating, v: View, p: seq<Decoded>, keep: bool, inherits: bool, limit: nat, ticks: nat,
                  scratch: Flags, s: State, t: State, m: Marks)
    requires Respects(f, h) && p != [] && Trace(v, p, limit, ticks) && Same(h, s, t, m) && Settled(v, p, limit, ticks, m)
    requires IsComparison(p[0].instruction) && Executes(p[0].instruction, s) ==> h.clear(s.rest)
    requires Affordable(v, p, limit, ticks) && (inherits ==> t.flags == f.comparisonFlags(t.rest))
    ensures var e, left := p[0], ticks - Cost(v, p[0]);
            var next := EmittedOne(f, v, e, keep, inherits, limit - 1, left, scratch, t);
            var marks := Marked(v, e, keep, limit - 1, left, m);
            && Same(h, Step(f, e.instruction, s), next, marks) && Settled(v, p[1..], limit - 1, left, marks)
            && (Inherits(v, e, keep, limit - 1, left) ==> next.flags == f.comparisonFlags(next.rest))
  {
    hide EffectsOf, Step, EmittedOne, Agree, Trace, Settled, Same, Respects, Executes, Marked, Scan, ConditionReads, Marks.All;
    var e, left := p[0], ticks - Cost(v, p[0]);
    if IsComparison(e.instruction) {
      ComparisonSettles(v, p, keep, limit, ticks, m);
      ComparisonAgrees(f, h, v, e, keep, inherits, limit - 1, left, scratch, s, t, m);
    } else if EffectsOf(e.instruction).boundary {
      BoundarySettles(v, p, limit, ticks, m);
      BoundaryAgrees(f, h, v, e, keep, inherits, limit - 1, left, scratch, s, t);
      NothingSettled(v, p[1..], limit - 1, left);
    } else {
      OrdinarySettles(v, p, keep, limit, ticks, m);
      OrdinaryAgrees(f, h, v, e, keep, inherits, limit - 1, left, scratch, s, t, m);
    }
  }

  lemma NothingSettled(v: View, p: seq<Decoded>, limit: nat, ticks: nat)
    ensures Settled(v, p, limit, ticks, NO_MARKS)
  {
  }

  lemma BoundaryAgrees(f: Families, h: Floating, v: View, e: Decoded, keep: bool, inherits: bool, remaining: nat, ticks: nat,
                       scratch: Flags, s: State, t: State)
    requires !IsComparison(e.instruction) && EffectsOf(e.instruction).boundary && Same(h, s, t, NO_MARKS)
    ensures var next := EmittedOne(f, v, e, keep, inherits, remaining, ticks, scratch, t);
            Same(h, Step(f, e.instruction, s), next, NO_MARKS) &&
            Marked(v, e, keep, remaining, ticks, NO_MARKS) == NO_MARKS
  {
    assert !TakesComparison(e.instruction);
    hide EffectsOf, Step, EmittedStep;
    BoundaryExact(f, e.instruction, scratch, t);
    assert s == t;
  }

  function MarksAfter(v: View, p: seq<Decoded>, limit: nat, ticks: nat, keeps: seq<bool>, m: Marks, k: nat): Marks
    requires |keeps| == |p| && Affordable(v, p, limit, ticks) && k <= |p|
  {
    if k == 0 then m
    else
      var left := ticks - Cost(v, p[0]);
      MarksAfter(v, p[1..], limit - 1, left, keeps[1..], Marked(v, p[0], keeps[0], limit - 1, left, m), k - 1)
  }

  /** What a trace still owes at instruction k, or at its end. */
  ghost predicate Owed(h: Floating, p: seq<Decoded>, s: State, t: State, m: Marks, k: nat)
    requires k <= |p|
  {
    && Same(h, s, t, m)
    && (k == |p| || (EffectsOf(p[k].instruction).boundary && !IsComparison(p[k].instruction)) ==> m == NO_MARKS)
    && (k < |p| && IsComparison(p[k].instruction) ==>
          m.plain == {} && ConditionReads(p[k].instruction.condition) * m.compared == {})
    && (k < |p| && !EffectsOf(p[k].instruction).boundary ==> EffectsOf(p[k].instruction).read * m.All() == {})
  }

  lemma OwedHere(h: Floating, v: View, p: seq<Decoded>, limit: nat, ticks: nat, s: State, t: State, m: Marks)
    requires (p != [] ==> Trace(v, p, limit, ticks)) && Same(h, s, t, m) && Settled(v, p, limit, ticks, m)
    ensures Owed(h, p, s, t, m, 0)
  {
    if p != [] {
      hide EffectsOf, Trace, Settled, Same, ConditionReads;
      if IsComparison(p[0].instruction) {
        ComparisonSettles(v, p, true, limit, ticks, m);
      } else if EffectsOf(p[0].instruction).boundary {
        BoundarySettles(v, p, limit, ticks, m);
      } else {
        OrdinarySettles(v, p, true, limit, ticks, m);
      }
    }
  }

  lemma {:induction false} ComparedFrom(f: Families, h: Floating, v: View, p: seq<Decoded>, limit: nat, ticks: nat,
                                        keeps: seq<bool>, inherits: bool, scratch: seq<Flags>, s: State, t: State, m: Marks, k: nat)
    requires Respects(f, h) && |scratch| == |keeps| == |p| && k <= |p| && Affordable(v, p, limit, ticks)
    requires (p != [] ==> Trace(v, p, limit, ticks)) && Same(h, s, t, m) && Settled(v, p, limit, ticks, m)
    requires (inherits ==> t.flags == f.comparisonFlags(t.rest)) && Reaches(f, h, p, s, k)
    ensures Owed(h, p, Run(f, p, s, k), EmittedAll(f, v, p, limit, ticks, keeps, inherits, scratch, t, k),
                 MarksAfter(v, p, limit, ticks, keeps, m, k), k)
    decreases k
  {
    hide EffectsOf, Step, EmittedOne, Marked, Trace, Settled, Same, Respects, Inherits, Executes;
    if k == 0 {
      OwedHere(h, v, p, limit, ticks, s, t, m);
    } else {
      var e, left := p[0], ticks - Cost(v, p[0]);
      OneAgrees(f, h, v, p, keeps[0], inherits, limit, ticks, scratch[0], s, t, m);
      TraceRest(v, p, limit, ticks);
      ComparedFrom(f, h, v, p[1..], limit - 1, left, keeps[1..], Inherits(v, e, keeps[0], limit - 1, left), scratch[1..],
                   Step(f, e.instruction, s), EmittedOne(f, v, e, keeps[0], inherits, limit - 1, left, scratch[0], t),
                   Marked(v, e, keeps[0], limit - 1, left, m), k - 1);
    }
  }

  /** Dead-flag elimination together with clobbering comparisons preserves meaning.
      Up to any instruction that the trace reaches, the registers and the opaque
      state are the portable ones; a boundary, the end of the trace, and a comparison
      that finds a trap control set see the exact NZCV as well. */
  lemma ComparedElimination(f: Families, h: Floating, v: View, p: seq<Decoded>, limit: nat, ticks: nat,
                            keeps: seq<bool>, scratch: seq<Flags>, s: State, k: nat)
    requires Respects(f, h) && Trace(v, p, limit, ticks) && |scratch| == |keeps| == |p| && k <= |p|
    requires Reaches(f, h, p, s, k)
    ensures Affordable(v, p, limit, ticks)
    ensures var a, b := Run(f, p, s, k), EmittedAll(f, v, p, limit, ticks, keeps, false, scratch, s, k);
            && a.regs == b.regs && a.rest == b.rest
            && (k == |p| || (EffectsOf(p[k].instruction).boundary && !IsComparison(p[k].instruction)) ==> a == b)
            && (k < |p| && IsComparison(p[k].instruction) && !h.clear(a.rest) ==> a == b)
            && (k < |p| && p[k].instruction.condition < 15 ==> Executes(p[k].instruction, a) == Executes(p[k].instruction, b))
  {
    TraceAffordable(v, p, limit, ticks);
    hide Run, EmittedAll, EffectsOf, Trace, Respects, Reaches, Executes, ConditionReads, MarksAfter;
    NothingSettled(v, p, limit, ticks);
    ComparedFrom(f, h, v, p, limit, ticks, keeps, false, scratch, s, s, NO_MARKS, k);
    var a, b, m := Run(f, p, s, k), EmittedAll(f, v, p, limit, ticks, keeps, false, scratch, s, k),
                   MarksAfter(v, p, limit, ticks, keeps, NO_MARKS, k);
    assert NO_MARKS.All() == {};
    if k < |p| && p[k].instruction.condition < 15 && (IsComparison(p[k].instruction) || !EffectsOf(p[k].instruction).boundary) {
      ReachedReads(p[k].instruction, m);
      ComparisonSkips(p[k].instruction, a, b, m.All());
    }
  }

  /** Has the compiler seen these controls tested before instruction k? Only an
      unconditional test counts, and any write of the status register forgets it. */
  function Checked(p: seq<Decoded>, checked: bool, k: nat): bool
    requires k <= |p|
  {
    if k == 0 then checked
    else
      var inst := p[0].instruction;
      Checked(p[1..], !WritesControls(inst) && (checked || (IsComparison(inst) && inst.condition == 14)), k - 1)
  }

  /** A test that is left out because it was made before would pass. */
  lemma {:induction false} OmittedTest(f: Families, h: Floating, p: seq<Decoded>, s: State, checked: bool, k: nat)
    requires Respects(f, h) && k <= |p| && Reaches(f, h, p, s, k) && (checked ==> h.clear(s.rest))
    ensures Checked(p, checked, k) ==> h.clear(Run(f, p, s, k).rest)
    decreases k
  {
    hide Step;
    if k != 0 {
      var inst := p[0].instruction;
      assert Clears(f, h, inst, s);
      OmittedTest(f, h, p[1..], Step(f, inst, s), !WritesControls(inst) && (checked || (IsComparison(inst) && inst.condition == 14)), k - 1);
    }
  }

  /** The condition of an instruction that is reached reads no stale flag. */
  lemma ReachedReads(inst: Instruction, m: Marks)
    requires if IsComparison(inst) then m.plain == {} && ConditionReads(inst.condition) * m.compared == {}
             else EffectsOf(inst).read * m.All() == {}
    ensures ConditionReads(inst.condition) * m.All() == {}
  {
    ConditionIsRead(inst);
    hide EffectsOf, ConditionReads;
    if IsComparison(inst) {
      assert m.All() == m.compared;
    } else {
      assert ConditionReads(inst.condition) * m.All() <= EffectsOf(inst).read * m.All();
    }
  }
}
