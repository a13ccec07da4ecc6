/** Exits of a trace that closes on itself before its searches end.

The compiler stops emitting when the flow returns to the entry, but a producer's
search may run on into the code of the next pass. The flags it then drops can be
stale at the exit between two passes: exactly when some search had to leave the
emitted part, and never in a way that the guest code at that exit observes.
 */
module CycleExits {
  import opened Words
  import opened Wrappers
  import opened Isa
  import opened GuestMachine
  import opened FlagScan
  import opened DeadFlags

  /** An instruction that keeps its flags is emitted as the portable machine runs it. */
  lemma {:induction false} KeptRun(f: Families, v: View, p: seq<Decoded>, limit: nat, ticks: nat, keeps: seq<bool>,
                                   scratch: seq<Flags>, t: State, k: nat)
    requires |scratch| == |keeps| == |p| && k <= |p| && Affordable(v, p, limit, ticks) && forall i :: 0 <= i < |keeps| ==> keeps[i]
    ensures EmittedRun(f, v, p, limit, ticks, keeps, scratch, t, k) == Run(f, p, t, k)
  {
    hide Step, EmittedStep, EffectsOf;
    if k > 0 {
      var left := ticks - Cost(v, p[0]);
      assert Choose(v, p[0], keeps[0], limit - 1, left) == EXACT;
      BoundaryExact(f, p[0].instruction, scratch[0], t);
      KeptRun(f, v, p[1..], limit - 1, left, keeps[1..], scratch[1..], Step(f, p[0].instruction, t), k - 1);
    }
  }

  lemma OneRun(f: Families, p: seq<Decoded>, s: State, m: nat)
    requires 0 < m <= |p|
    ensures Run(f, p, s, m) == Run(f, p[1..], Step(f, p[0].instruction, s), m - 1)
  {
  }

  lemma OneEmitted(f: Families, v: View, p: seq<Decoded>, limit: nat, ticks: nat, keeps: seq<bool>,
                   scratch: seq<Flags>, t: State, m: nat)
    requires |scratch| == |keeps| == |p| && 0 < m <= |p| && Affordable(v, p, limit, ticks)
    ensures var left := ticks - Cost(v, p[0]);
            var l := Choose(v, p[0], keeps[0], limit - 1, left);
            EmittedRun(f, v, p, limit, ticks, keeps, scratch, t, m) ==
            EmittedRun(f, v, p[1..], limit - 1, left, keeps[1..], scratch[1..],
                       EmittedStep(f, p[0].instruction, l, scratch[0], t), m - 1)
  {
    hide Choose, EmittedStep;
  }

  lemma AffordableRest(v: View, p: seq<Decoded>, limit: nat, ticks: nat)
    requires p != [] && Affordable(v, p, limit, ticks)
    ensures limit >= 1 && p[0].word.Some? && Cost(v, p[0]) <= ticks && Affordable(v, p[1..], limit - 1, ticks - Cost(v, p[0]))
  {
  }

  lemma DropTwice<T>(p: seq<T>, m: nat)
    requires 0 < m <= |p|
    ensures p[1..][m - 1..] == p[m..]
  {
  }

  /** The states two runs resume in do not differ where the guest could see it. */
  ghost predicate Alike(a: State, b: State, p: seq<Decoded>, k: nat)
    requires k <= |p|
  {
    a.regs == b.regs && a.rest == b.rest && (k == |p| || EffectsOf(p[k].instruction).boundary ==> a == b)
  }

  lemma AlikeRest(a: State, b: State, p: seq<Decoded>, k: nat)
    requires 0 < k <= |p| && Alike(a, b, p[1..], k - 1)
    ensures Alike(a, b, p, k)
  {
    hide EffectsOf;
    assert k < |p| ==> p[1..][k - 1] == p[k];
  }

  /** Started with stale flags that settle, the portable machine goes on alike. */
  lemma ResumeHere(f: Families, v: View, p: seq<Decoded>, limit: nat, ticks: nat, s: State, t: State, d: set<Flag>, j: nat)
    requires Trace(v, p, limit, ticks) && j <= |p| && Agree(s, t, d) && Settles(v, p, limit, ticks, d)
    ensures Alike(Run(f, p, s, j), Run(f, p, t, j), p, j)
  {
    hide EffectsOf, Run, EmittedRun, Trace, Settles, Agree, StaleAfter;
    var all, scratch := seq(|p|, _ => true), seq(|p|, _ => s.flags);
    TraceAffordable(v, p, limit, ticks);
    EliminationFrom(f, v, p, limit, ticks, all, scratch, s, t, d, j);
    KeptRun(f, v, p, limit, ticks, all, scratch, t, j);
    AgreeAll(Run(f, p, s, j), Run(f, p, t, j), StaleAfter(v, p, limit, ticks, all, d, j));
  }

  lemma AgreeAll(a: State, b: State, mask: set<Flag>)
    requires Agree(a, b, mask)
    ensures a.regs == b.regs && a.rest == b.rest && (mask == {} ==> a == b)
  {
  }

  /** The emitted exit and the portable machine after one instruction, one step on. */
  lemma ResumeStep(f: Families, v: View, p: seq<Decoded>, limit: nat, ticks: nat, keeps: seq<bool>,
                   scratch: seq<Flags>, s: State, t: State, rest: seq<Decoded>, m: nat, j: nat)
    requires |scratch| == |keeps| == |p| && 0 < m <= |p| && m + j <= |p| && Affordable(v, p, limit, ticks) && j <= |rest|
    requires var left := ticks - Cost(v, p[0]);
             var t' := EmittedStep(f, p[0].instruction, Choose(v, p[0], keeps[0], limit - 1, left), scratch[0], t);
             Alike(Run(f, rest, Run(f, p[1..], Step(f, p[0].instruction, s), m - 1), j),
                   Run(f, rest, EmittedRun(f, v, p[1..], limit - 1, left, keeps[1..], scratch[1..], t', m - 1), j),
                   p[1..], m - 1 + j)
    ensures Alike(Run(f, rest, Run(f, p, s, m), j),
                  Run(f, rest, EmittedRun(f, v, p, limit, ticks, keeps, scratch, t, m), j), p, m + j)
  {
    hide Alike, Run, EmittedRun, Choose, Step, EmittedStep;
    OneRun(f, p, s, m);
    OneEmitted(f, v, p, limit, ticks, keeps, scratch, t, m);
    AlikeRest(Run(f, rest, Run(f, p, s, m), j),
              Run(f, rest, EmittedRun(f, v, p, limit, ticks, keeps, scratch, t, m), j), p, m + j);
  }

  /** From an exit after m emitted instructions the portable machine goes on over the
      rest as from the exact state. */
  lemma {:induction false} ResumeFrom(f: Families, v: View, p: seq<Decoded>, limit: nat, ticks: nat, keeps: seq<bool>,
                                      scratch: seq<Flags>, s: State, t: State, d: set<Flag>, rest: seq<Decoded>, m: nat, j: nat)
    requires Trace(v, p, limit, ticks) && |scratch| == |keeps| == |p| && m + j <= |p| && Affordable(v, p, limit, ticks)
    requires Agree(s, t, d) && Settles(v, p, limit, ticks, d) && rest == p[m..]
    ensures Alike(Run(f, rest, Run(f, p, s, m), j),
                  Run(f, rest, EmittedRun(f, v, p, limit, ticks, keeps, scratch, t, m), j), p, m + j)
    decreases m
  {
    hide Alike, Run, EmittedRun, Trace, Settles, Agree, Choose, Passed, Step, EmittedStep;
    if m == 0 {
      assert rest == p;
      RunNothing(f, v, p, limit, ticks, keeps, scratch, s, t);
      ResumeHere(f, v, p, limit, ticks, s, t, d, j);
    } else {
      var e, left := p[0], ticks - Cost(v, p[0]);
      var l := Choose(v, e, keeps[0], limit - 1, left);
      StepAgrees(f, v, p, keeps[0], limit, ticks, scratch[0], s, t, d);
      TraceRest(v, p, limit, ticks);
      AffordableRest(v, p, limit, ticks);
      DropTwice(p, m);
      var s', t' := Step(f, e.instruction, s), EmittedStep(f, e.instruction, l, scratch[0], t);
      if |p| == 1 {
        LastAlike(f, v, p, limit, ticks, keeps, scratch, s', t', Passed(e.instruction, l, d), rest);
      } else {
        ResumeFrom(f, v, p[1..], limit - 1, left, keeps[1..], scratch[1..], s', t', Passed(e.instruction, l, d), rest, m - 1, j);
      }
      ResumeStep(f, v, p, limit, ticks, keeps, scratch, s, t, rest, m, j);
    }
  }

  lemma RunNothing(f: Families, v: View, p: seq<Decoded>, limit: nat, ticks: nat, keeps: seq<bool>,
                   scratch: seq<Flags>, s: State, t: State)
    requires |scratch| == |keeps| == |p| && Affordable(v, p, limit, ticks)
    ensures Run(f, p, s, 0) == s && EmittedRun(f, v, p, limit, ticks, keeps, scratch, t, 0) == t
  {
  }

  /** After the last instruction nothing is stale. */
  lemma LastAlike(f: Families, v: View, p: seq<Decoded>, limit: nat, ticks: nat, keeps: seq<bool>,
                  scratch: seq<Flags>, s: State, t: State, stale: set<Flag>, rest: seq<Decoded>)
    requires |p| == |keeps| == |scratch| == 1 && Affordable(v, p, limit, ticks)
    requires Agree(s, t, stale) && Settles(v, p[1..], limit - 1, ticks - Cost(v, p[0]), stale)
    ensures Alike(Run(f, rest, Run(f, p[1..], s, 0), 0),
                  Run(f, rest, EmittedRun(f, v, p[1..], limit - 1, ticks - Cost(v, p[0]), keeps[1..], scratch[1..], t, 0), 0),
                  p[1..], 0)
  {
    hide EffectsOf, Scan;
    assert p[1..] == [];
  }

  /** An exit between passes is never observed by the guest: p is the whole straight
      line the searches may inspect, of which the first m instructions are emitted. */
  lemma ResumeExact(f: Families, v: View, p: seq<Decoded>, limit: nat, ticks: nat, keeps: seq<bool>,
                    scratch: seq<Flags>, s: State, m: nat, j: nat)
    requires Trace(v, p, limit, ticks) && |scratch| == |keeps| == |p| && m + j <= |p|
    ensures Affordable(v, p, limit, ticks)
    ensures var a, b := Run(f, p[m..], Run(f, p, s, m), j),
                        Run(f, p[m..], EmittedRun(f, v, p, limit, ticks, keeps, scratch, s, m), j);
            && a.regs == b.regs && a.rest == b.rest
            && (m + j == |p| || EffectsOf(p[m + j].instruction).boundary ==> a == b)
  {
    hide EffectsOf, Step, EmittedRun, Run, Trace;
    TraceAffordable(v, p, limit, ticks);
    ResumeFrom(f, v, p, limit, ticks, keeps, scratch, s, s, {}, p[m..], m, j);
    hide EffectsOf;
  }

  /** Every choice of the first m instructions would be the same had the searches
      been confined to them. */
  predicate Confined(v: View, p: seq<Decoded>, limit: nat, ticks: nat, keeps: seq<bool>, m: nat)
    requires |keeps| == |p| && Affordable(v, p, limit, ticks) && m <= |p|
  {
    m == 0 ||
    (var left := ticks - Cost(v, p[0]);
     Choose(v, p[0], keeps[0], limit - 1, left) == Choose(v, p[0], keeps[0], m - 1, left) &&
     Confined(v, p[1..], limit - 1, left, keeps[1..], m - 1))
  }

  /** A trace may stop early if its limit does. */
  lemma {:induction false} TracePrefix(v: View, p: seq<Decoded>, limit: nat, ticks: nat, m: nat)
    requires Trace(v, p, limit, ticks) && m <= |p|
    ensures Trace(v, p[..m], m, ticks)
  {
    hide EffectsOf;
    if m > 1 {
      TracePrefix(v, p[1..], limit - 1, ticks - Cost(v, p[0]), m - 1);
      assert p[..m][1..] == p[1..][..m - 1];
    }
  }

  lemma OneStale(v: View, p: seq<Decoded>, limit: nat, ticks: nat, keeps: seq<bool>, d: set<Flag>, k: nat)
    requires |keeps| == |p| && Affordable(v, p, limit, ticks) && 0 < k <= |p|
    ensures var left := ticks - Cost(v, p[0]);
            StaleAfter(v, p, limit, ticks, keeps, d, k) ==
            StaleAfter(v, p[1..], limit - 1, left, keeps[1..],
                       Passed(p[0].instruction, Choose(v, p[0], keeps[0], limit - 1, left), d), k - 1)
  {
    hide Choose, Passed;
  }

  lemma OneConfined(v: View, p: seq<Decoded>, limit: nat, ticks: nat, keeps: seq<bool>, m: nat)
    requires |keeps| == |p| && Affordable(v, p, limit, ticks) && 0 < m <= |p|
    ensures var left := ticks - Cost(v, p[0]);
            Confined(v, p, limit, ticks, keeps, m) <==>
            Choose(v, p[0], keeps[0], limit - 1, left) == Choose(v, p[0], keeps[0], m - 1, left) &&
            Confined(v, p[1..], limit - 1, left, keeps[1..], m - 1)
  {
    hide Choose;
  }

  lemma TakeRest<T>(p: seq<T>, m: nat)
    requires 0 < m <= |p|
    ensures p[..m][1..] == p[1..][..m - 1] && p[..m][0] == p[0]
  {
  }

  lemma {:induction false} ConfinedSame(v: View, p: seq<Decoded>, limit: nat, ticks: nat, keeps: seq<bool>, d: set<Flag>, m: nat)
    requires |keeps| == |p| && Affordable(v, p, limit, ticks) && m <= |p| && Affordable(v, p[..m], m, ticks)
    requires Confined(v, p, limit, ticks, keeps, m)
    ensures StaleAfter(v, p, limit, ticks, keeps, d, m) == StaleAfter(v, p[..m], m, ticks, keeps[..m], d, m)
  {
    if m > 0 {
      hide Choose, Passed, StaleAfter, Affordable, Confined;
      AffordableRest(v, p, limit, ticks);
      AffordableRest(v, p[..m], m, ticks);
      TakeRest(p, m);
      TakeRest(keeps, m);
      OneConfined(v, p, limit, ticks, keeps, m);
      OneStale(v, p, limit, ticks, keeps, d, m);
      OneStale(v, p[..m], m, ticks, keeps[..m], d, m);
      var left := ticks - Cost(v, p[0]);
      ConfinedSame(v, p[1..], limit - 1, left, keeps[1..],
                   Passed(p[0].instruction, Choose(v, p[0], keeps[0], limit - 1, left), d), m - 1);
    }
  }

  /** Nothing is stale where a trace ends. */
  lemma {:induction false} NothingLeft(v: View, p: seq<Decoded>, limit: nat, ticks: nat, keeps: seq<bool>, d: set<Flag>)
    requires Trace(v, p, limit, ticks) && |keeps| == |p| && Affordable(v, p, limit, ticks) && Settles(v, p, limit, ticks, d)
    ensures StaleAfter(v, p, limit, ticks, keeps, d, |p|) == {}
  {
    hide EffectsOf, Choose, Passed;
    if p == [] {
      hide Scan;
    } else {
      PassedSettles(v, p, keeps[0], limit, ticks, d);
      TraceRest(v, p, limit, ticks);
      var left := ticks - Cost(v, p[0]);
      var d' := Passed(p[0].instruction, Choose(v, p[0], keeps[0], limit - 1, left), d);
      if |p| == 1 {
        assert p[1..] == [];
      } else {
        NothingLeft(v, p[1..], limit - 1, left, keeps[1..], d');
      }
    }
  }

  lemma PassedSettles(v: View, p: seq<Decoded>, keep: bool, limit: nat, ticks: nat, d: set<Flag>)
    requires p != [] && Trace(v, p, limit, ticks) && Settles(v, p, limit, ticks, d)
    ensures var left := ticks - Cost(v, p[0]);
            Settles(v, p[1..], limit - 1, left, Passed(p[0].instruction, Choose(v, p[0], keep, limit - 1, left), d))
  {
    hide EffectsOf, Choose;
    if !EffectsOf(p[0].instruction).boundary {
      StaleSettles(v, p, keep, limit, ticks, d);
    }
  }

  /** A search whose bits are all overwritten by the first m instructions needs no more. */
  lemma {:induction false} SearchWithin(v: View, p: seq<Decoded>, limit: nat, ticks: nat, keeps: seq<bool>,
                                        live: set<Flag>, d: set<Flag>, m: nat)
    requires Trace(v, p, limit, ticks) && |keeps| == |p| && Affordable(v, p, limit, ticks) && m <= |p| && p != []
    requires live != {} && live <= d && Scan(v, Query(live, p[0].pc, p[0].it, {}), limit, ticks)
    requires StaleAfter(v, p, limit, ticks, keeps, d, m) == {}
    ensures Scan(v, Query(live, p[0].pc, p[0].it, {}), m, ticks)
    decreases m
  {
    hide EffectsOf, Choose;
    if m > 0 {
      var e, left := p[0], ticks - Cost(v, p[0]);
      var next := live - EffectsOf(e.instruction).guaranteedWrite;
      assert Inspect(v, Query(live, e.pc, e.it, {})) == Advance(Cost(v, e), Next(v, e, next));
      if next != {} {
        StaleAhead(v, p, limit, ticks, next);
        TraceRest(v, p, limit, ticks);
        SearchWithin(v, p[1..], limit - 1, left, keeps[1..], next,
                     Passed(e.instruction, Choose(v, e, keeps[0], limit - 1, left), d), m - 1);
      }
    }
  }

  /** If nothing is stale after m instructions, what the first one gave up was
      overwritten inside them. */
  lemma DeadWithin(v: View, p: seq<Decoded>, limit: nat, ticks: nat, keeps: seq<bool>, live: set<Flag>, d: set<Flag>, m: nat)
    requires Trace(v, p, limit, ticks) && |keeps| == |p| && Affordable(v, p, limit, ticks) && 0 < m <= |p|
    requires !EffectsOf(p[0].instruction).boundary && Settles(v, p[1..], limit - 1, ticks - Cost(v, p[0]), d)
    requires StaleAfter(v, p[1..], limit - 1, ticks - Cost(v, p[0]), keeps[1..], d, m - 1) == {}
    ensures Dead(v, p[0], live, limit - 1, ticks - Cost(v, p[0])) && live <= d ==> Dead(v, p[0], live, m - 1, ticks - Cost(v, p[0]))
    ensures Dead(v, p[0], live, m - 1, ticks - Cost(v, p[0])) ==> Dead(v, p[0], live, limit - 1, ticks - Cost(v, p[0]))
  {
    hide EffectsOf, StaleAfter, Inspect;
    var left := ticks - Cost(v, p[0]);
    if Dead(v, p[0], live, limit - 1, left) && live <= d {
      TraceRest(v, p, limit, ticks);
      StaleAhead(v, p, limit, ticks, live);
      SearchWithin(v, p[1..], limit - 1, left, keeps[1..], live, d, m - 1);
    }
    if Dead(v, p[0], live, m - 1, left) {
      ScanMonotone(v, Next(v, p[0], live), m - 1, left, limit - 1, left);
    }
  }

  lemma SameChoice(v: View, p: seq<Decoded>, limit: nat, ticks: nat, keeps: seq<bool>, d: set<Flag>, m: nat)
    requires Trace(v, p, limit, ticks) && |keeps| == |p| && Affordable(v, p, limit, ticks) && 0 < m <= |p|
    requires Settles(v, p, limit, ticks, d)
    requires var left := ticks - Cost(v, p[0]);
             StaleAfter(v, p[1..], limit - 1, left, keeps[1..],
                        Passed(p[0].instruction, Choose(v, p[0], keeps[0], limit - 1, left), d), m - 1) == {}
    ensures Choose(v, p[0], keeps[0], limit - 1, ticks - Cost(v, p[0])) == Choose(v, p[0], keeps[0], m - 1, ticks - Cost(v, p[0]))
  {
    hide EffectsOf, StaleAfter, Dead, Trace, ClobbersInternalFlags, CARRY_ONLY, ALL_FLAGS;
    if !EffectsOf(p[0].instruction).boundary && !keeps[0] {
      var left := ticks - Cost(v, p[0]);
      var d' := Passed(p[0].instruction, Choose(v, p[0], keeps[0], limit - 1, left), d);
      PassedSettles(v, p, keeps[0], limit, ticks, d);
      DeadWithin(v, p, limit, ticks, keeps, EffectsOf(p[0].instruction).possibleWrite, d', m);
      DeadWithin(v, p, limit, ticks, keeps, CARRY_ONLY, d', m);
      DeadWithin(v, p, limit, ticks, keeps, ALL_FLAGS, d', m);
    }
  }

  lemma {:induction false} ExactConfined(v: View, p: seq<Decoded>, limit: nat, ticks: nat, keeps: seq<bool>, d: set<Flag>, m: nat)
    requires Trace(v, p, limit, ticks) && |keeps| == |p| && Affordable(v, p, limit, ticks) && m <= |p|
    requires Settles(v, p, limit, ticks, d) && StaleAfter(v, p, limit, ticks, keeps, d, m) == {}
    ensures Confined(v, p, limit, ticks, keeps, m)
  {
    hide EffectsOf, Choose, Passed, Settles;
    if m > 0 {
      var left := ticks - Cost(v, p[0]);
      SameChoice(v, p, limit, ticks, keeps, d, m);
      PassedSettles(v, p, keeps[0], limit, ticks, d);
      TraceRest(v, p, limit, ticks);
      if m > 1 {
        ExactConfined(v, p[1..], limit - 1, left, keeps[1..],
                      Passed(p[0].instruction, Choose(v, p[0], keeps[0], limit - 1, left), d), m - 1);
      }
    }
  }

  /** Nothing is stale at an exit after m instructions if and only if no choice
      needed a search to leave them; then the exit publishes the portable state. */
  lemma ExitExact(f: Families, v: View, p: seq<Decoded>, limit: nat, ticks: nat, keeps: seq<bool>,
                  scratch: seq<Flags>, s: State, m: nat)
    requires Trace(v, p, limit, ticks) && |scratch| == |keeps| == |p| && m <= |p|
    ensures Affordable(v, p, limit, ticks)
    ensures StaleAfter(v, p, limit, ticks, keeps, {}, m) == {} <==> Confined(v, p, limit, ticks, keeps, m)
    ensures Confined(v, p, limit, ticks, keeps, m) ==>
              EmittedRun(f, v, p, limit, ticks, keeps, scratch, s, m) == Run(f, p, s, m)
  {
    hide EffectsOf, Choose, Passed, Step, EmittedRun, Run;
    TraceAffordable(v, p, limit, ticks);
    TracePrefix(v, p, limit, ticks, m);
    TraceAffordable(v, p[..m], m, ticks);
    if Confined(v, p, limit, ticks, keeps, m) {
      ConfinedSame(v, p, limit, ticks, keeps, {}, m);
      NothingLeft(v, p[..m], m, ticks, keeps[..m], {});
    }
    if StaleAfter(v, p, limit, ticks, keeps, {}, m) == {} {
      ExactConfined(v, p, limit, ticks, keeps, {}, m);
    }
    EliminationFrom(f, v, p, limit, ticks, keeps, scratch, s, s, {}, m);
  }

  /** A four-instruction cycle entered in its middle: at 8 compare r0 with zero, at 12
      branch to 0, at 0 add one to r0 setting flags, at 4 clear r1. */
  function CycleInstruction(pc: int): Instruction {
    if pc == 0 then
      Instruction(DataProcessing, 14, 4, 4, 0, 0, 0, 0, Lsl, 0, 1, true, false, true, false, false, {}, 0, false, false, true, true, false)
    else if pc == 4 then
      Instruction(DataProcessing, 14, 4, 13, 1, 0, 0, 0, Lsl, 0, 0, true, false, false, false, false, {}, 0, false, false, true, true, false)
    else if pc == 8 then
      Instruction(DataProcessing, 14, 4, 10, 0, 0, 0, 0, Lsl, 0, 0, true, false, true, false, false, {}, 0, false, false, true, true, false)
    else
      Instruction(Branch, 14, 4, 0, 0, 0, 0, 0, Lsl, 0, 0, true, false, false, false, false, {}, 0, false, false, true, true, false)
  }

  function CycleView(): View {
    View(Source((pc: nat) => false,
                (thumb: bool, pc: nat) => Some(pc as int),
                (thumb: bool, word: int, it: nat) => CycleInstruction(word),
                (thumb: bool, pc: nat, word: int) => 1),
         (pc: nat) => Some(16), false)
  }

  function CycleDecode(pc: nat): Decoded {
    Decoded(pc, 0, Some(pc as int), CycleInstruction(pc), None)
  }

  function PlainFamilies(): Families {
    Families((inst: Instruction, r: Reg, regs: seq<Word>) => Register(regs, r),
             (inst: Instruction, regs: seq<Word>, rest: int) => Outcome(regs, rest),
             (inst: Instruction, regs: seq<Word>) => (false, false),
             (rest: int) => Flags(false, false, false, false),
             (flags: Flags, rest: int) => 0,
             (inst: Instruction, s: State) => s)
  }

  const START := State([0, 0, 0, 0, 0, 0, 0, 0, 0, 0, 0, 0, 0, 0, 0, 0], Flags(false, false, false, false), 0)

  function CycleTrace(k: nat): seq<Decoded>
    requires k <= 5
  {
    [CycleDecode(8), CycleDecode(12), CycleDecode(0), CycleDecode(4), CycleDecode(8)][k..]
  }

  lemma CycleEffects()
    ensures EffectsOf(CycleInstruction(0)) == FlagEffects({}, ALL_FLAGS, ALL_FLAGS, false)
    ensures EffectsOf(CycleInstruction(4)) == FlagEffects({}, {}, {}, false)
    ensures EffectsOf(CycleInstruction(8)) == FlagEffects({}, ALL_FLAGS, ALL_FLAGS, false)
    ensures EffectsOf(CycleInstruction(12)).boundary
  {
  }

  lemma CycleIsTrace()
    ensures Trace(CycleView(), CycleTrace(0), 5, 5) && Affordable(CycleView(), CycleTrace(0), 5, 5)
  {
    hide EffectsOf;
    CycleEffects();
    var v := CycleView();
    assert CycleTrace(4)[1..] == [] && CycleTrace(3)[1..] == CycleTrace(4) && CycleTrace(2)[1..] == CycleTrace(3);
    assert CycleTrace(1)[1..] == CycleTrace(2) && CycleTrace(0)[1..] == CycleTrace(1);
    assert Trace(v, CycleTrace(4), 1, 1);
    assert Trace(v, CycleTrace(3), 2, 2);
    assert Trace(v, CycleTrace(2), 3, 3);
    assert Trace(v, CycleTrace(1), 4, 4);
    assert Trace(v, CycleTrace(0), 5, 5);
    TraceAffordable(v, CycleTrace(0), 5, 5);
  }

  lemma CycleChoices()
    ensures Choose(CycleView(), CycleDecode(8), false, 4, 4) == EXACT
    ensures Choose(CycleView(), CycleDecode(12), false, 3, 3) == EXACT
    ensures Choose(CycleView(), CycleDecode(0), false, 2, 2) == Lowering(true, false, false)
    ensures Choose(CycleView(), CycleDecode(4), true, 1, 1) == EXACT
  {
    hide EffectsOf;
    CycleEffects();
    var v := CycleView();
    var middle := Query(ALL_FLAGS, 4, 0, {});
    assert Inspect(v, middle) == Advance(1, Query(ALL_FLAGS, 8, 0, {}));
    assert Inspect(v, Query(ALL_FLAGS, 8, 0, {})) == Advance(1, Query({}, 12, 0, {}));
    assert Scan(v, Query(ALL_FLAGS, 8, 0, {}), 1, 1);
    assert Scan(v, middle, 2, 2);
    assert Next(v, CycleDecode(0), ALL_FLAGS) == middle;
    assert Inspect(v, Query(ALL_FLAGS, 12, 0, {})).Terminal?;
  }

  lemma CycleSteps(s: State)
    requires s.regs == START.regs
    ensures var f := PlainFamilies();
            && Step(f, CycleInstruction(8), s).regs == s.regs && Step(f, CycleInstruction(8), s).flags.z
            && Step(f, CycleInstruction(12), s) == s
            && !Step(f, CycleInstruction(0), s).flags.z
            && Step(f, CycleInstruction(0).(setFlags := false), s).flags == s.flags
  {
  }

  lemma CycleLast(s: State)
    ensures Step(PlainFamilies(), CycleInstruction(4), s).flags == s.flags
  {
  }

  lemma CycleTails()
    ensures CycleTrace(3)[1..] == CycleTrace(4) && CycleTrace(2)[1..] == CycleTrace(3)
    ensures CycleTrace(1)[1..] == CycleTrace(2) && CycleTrace(0)[1..] == CycleTrace(1)
  {
  }

  lemma PortablePass()
    ensures !Run(PlainFamilies(), CycleTrace(0), START, 4).flags.z
  {
    hide Step;
    CycleTails();
    var f := PlainFamilies();
    var s := Step(f, CycleInstruction(8), START);
    CycleSteps(START);
    CycleSteps(s);
    var t := Step(f, CycleInstruction(0), s);
    CycleLast(t);
    assert Run(f, CycleTrace(3), t, 1) == Step(f, CycleInstruction(4), t);
    assert Run(f, CycleTrace(2), s, 2) == Run(f, CycleTrace(3), t, 1);
    assert Run(f, CycleTrace(1), s, 3) == Run(f, CycleTrace(2), s, 2);
    assert Run(f, CycleTrace(0), START, 4) == Run(f, CycleTrace(1), s, 3);
  }

  /** The rest of the emitted pass, from instruction k of the cycle's trace. */
  function EmittedRest(k: nat, t: State): State
    requires k <= 4 && Affordable(CycleView(), CycleTrace(k), 5 - k, 5 - k)
  {
    EmittedRun(PlainFamilies(), CycleView(), CycleTrace(k), 5 - k, 5 - k, [false, false, false, true, false][k..],
               [START.flags, START.flags, START.flags, START.flags, START.flags][k..], t, 4 - k)
  }

  lemma EmittedOne(k: nat, t: State)
    requires k < 4 && Affordable(CycleView(), CycleTrace(k), 5 - k, 5 - k)
    ensures Affordable(CycleView(), CycleTrace(k + 1), 4 - k, 4 - k)
    ensures var keep := k == 3;
            EmittedRest(k, t) ==
            EmittedRest(k + 1, EmittedStep(PlainFamilies(), CycleTrace(k)[0].instruction,
                                           Choose(CycleView(), CycleTrace(k)[0], keep, 4 - k, 4 - k), START.flags, t))
  {
    hide Choose, EmittedStep;
    var keeps := [false, false, false, true, false];
    var scratch := [START.flags, START.flags, START.flags, START.flags, START.flags];
    assert keeps[k..][1..] == keeps[k + 1..] && scratch[k..][1..] == scratch[k + 1..];
    CycleTails();
    assert Cost(CycleView(), CycleTrace(k)[0]) == 1;
  }

  /** The three instructions of the pass that keep their flags. */
  lemma EmittedExactly(k: nat, t: State)
    requires (k < 2 || k == 3) && Affordable(CycleView(), CycleTrace(k), 5 - k, 5 - k)
    ensures Affordable(CycleView(), CycleTrace(k + 1), 4 - k, 4 - k)
    ensures EmittedRest(k, t) == EmittedRest(k + 1, Step(PlainFamilies(), CycleTrace(k)[0].instruction, t))
  {
    hide Choose, EmittedStep, Step, EmittedRun, Affordable, CycleInstruction, CycleView, PlainFamilies, EmittedRest;
    CycleChoices();
    EmittedOne(k, t);
    BoundaryExact(PlainFamilies(), CycleTrace(k)[0].instruction, START.flags, t);
  }

  /** The addition, whose flags were given up. */
  lemma EmittedDropped(s: State)
    requires s.regs == START.regs && Affordable(CycleView(), CycleTrace(2), 3, 3)
    ensures Affordable(CycleView(), CycleTrace(3), 2, 2)
    ensures var t := EmittedStep(PlainFamilies(), CycleInstruction(0), Lowering(true, false, false), START.flags, s);
            EmittedRest(2, s) == EmittedRest(3, t) && t.flags == s.flags
  {
    hide Choose, EmittedStep, Step, EmittedRun, Affordable, CycleInstruction, CycleView, PlainFamilies, EmittedRest;
    CycleChoices();
    EmittedOne(2, s);
    DroppedFlags(s);
  }

  lemma DroppedFlags(s: State)
    requires s.regs == START.regs
    ensures EmittedStep(PlainFamilies(), CycleInstruction(0), Lowering(true, false, false), START.flags, s).flags == s.flags
  {
    hide Step, EmittedStep, CycleInstruction, PlainFamilies;
    CycleSteps(s);
    DropExact(PlainFamilies(), CycleInstruction(0), START.flags, s);
  }

  lemma DropExact(f: Families, inst: Instruction, scratch: Flags, s: State)
    ensures EmittedStep(f, inst, Lowering(true, false, false), scratch, s) == Step(f, inst.(setFlags := false), s)
  {
    hide Step, ConditionPassed;
  }

  lemma EmittedPass()
    requires Affordable(CycleView(), CycleTrace(0), 5, 5)
    ensures EmittedRest(0, START).flags.z
  {
    hide Step, EmittedStep, EmittedRest, Affordable, CycleInstruction, CycleView, PlainFamilies, EffectsOf, EmittedRun;
    var f := PlainFamilies();
    var s := Step(f, CycleInstruction(8), START);
    CycleSteps(START);
    CycleSteps(s);
    EmittedExactly(0, START);
    EmittedExactly(1, s);
    EmittedDropped(s);
    var t := EmittedStep(f, CycleInstruction(0), Lowering(true, false, false), START.flags, s);
    EmittedExactly(3, t);
    CycleLast(t);
    LastRest(Step(f, CycleInstruction(4), t));
  }

  lemma LastRest(t: State)
    requires Affordable(CycleView(), CycleTrace(4), 1, 1)
    ensures EmittedRest(4, t) == t
  {
  }

  /** One pass of that cycle with room to search five instructions: the addition's
      flags are given up for the comparison of the next pass, and the exit between
      the passes still publishes the flags of the comparison before it. */
  lemma ExitCanBeStale()
    ensures var v, f, p := CycleView(), PlainFamilies(), CycleTrace(0);
            var keeps := [false, false, false, true, false];
            var scratch := [START.flags, START.flags, START.flags, START.flags, START.flags];
            && Trace(v, p, 5, 5) && Affordable(v, p, 5, 5)
            && !Run(f, p, START, 4).flags.z
            && EmittedRun(f, v, p, 5, 5, keeps, scratch, START, 4).flags.z
  {
    hide Trace, Run, EmittedRun, Affordable;
    CycleIsTrace();
    PortablePass();
    EmittedPass();
    assert [false, false, false, true, false][0..] == [false, false, false, true, false];
    assert [START.flags, START.flags, START.flags, START.flags, START.flags][0..] ==
           [START.flags, START.flags, START.flags, START.flags, START.flags];
  }
}
