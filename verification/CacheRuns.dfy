/** Runs of an emitted body with cached pointers, over any number of passes.

Every executed access uses exactly the slot value that validating it afresh
would publish, whichever guards were patched to skip validation.
 */
module CacheRuns {
  import opened Words
  import opened Wrappers
  import opened Isa
  import opened AddressDisplacements
  import opened AddressKeys
  import opened CachePointers
  import opened AddressCache
  import opened CacheGuards

  /** A body ready to run: its instructions and how it was finalized. */
  datatype Body = Body(conf: Config, items: seq<Item>, windows: seq<WindowView>, closed: bool) {
    function Final(): Cache
      requires conf.Valid()
    {
      Compile(EMPTY, conf, items)
    }

    function Facts(): (f: Facts)
      ensures Wellformed(f)
    {
      ObservedAll(INITIAL, Instructions(items))
    }

    predicate Patches(slot: nat)
      requires conf.Valid()
    {
      closed && slot < conf.slots && PatchesFirst(Final(), slot, windows, Facts())
    }

    function Patched(): set<nat>
      requires conf.Valid()
    {
      if closed then PatchedGuards(Final(), conf, windows, Facts()) else {}
    }
  }

  function Instructions(items: seq<Item>): (p: seq<Instruction>)
    ensures |p| == |items| && forall i :: 0 <= i < |p| ==> p[i] == items[i].inst
  {
    if items == [] then [] else [items[0].inst] + Instructions(items[1..])
  }

  /** One pass over the body, possibly left early: flags, registers and slots
      before each instruction. */
  datatype Pass = Pass(view: View, flags: seq<Flags>, regs: seq<seq<Word>>, slots: seq<seq<int>>)

  predicate Executes(inst: Instruction, flags: Flags) {
    inst.condition == 15 || ConditionPassed(inst.condition, flags)
  }

  /** A patched guard whose slot is not empty skips validation. */
  predicate Skips(b: Body, t: nat, op: Op, slots: seq<int>)
    requires b.conf.Valid() && |slots| == 4
  {
    op.Guarded? && op.slot < 4 && t in b.Patched() && slots[op.slot] != 0
  }

  /** Slots after an access: a validated guard publishes. */
  function SlotsAfter(b: Body, t: nat, op: Op, v: View, inst: Instruction, flags: Flags, regs: seq<Word>, slots: seq<int>): seq<int>
    requires b.conf.Valid() && |regs| == |v.entry| == 16 && |slots| == 4
  {
    if Executes(inst, flags) && op.Guarded? && op.slot < 4 && !Skips(b, t, op, slots)
    then slots[op.slot := SlotValue(v, op.identity, regs)] else slots
  }

  /** The slot value an executed access is formed from. */
  function Loaded(b: Body, t: nat, op: Op, v: View, regs: seq<Word>, slots: seq<int>): int
    requires b.conf.Valid() && |regs| == |v.entry| == 16 && |slots| == 4 && !op.Plain?
  {
    if op.Use? && op.slot < 4 then slots[op.slot]
    else if Skips(b, t, op, slots) then slots[op.slot]
    else SlotValue(v, op.identity, regs)
  }

  ghost predicate PassStep(b: Body, p: Pass, t: nat)
    requires b.conf.Valid() && t < |b.items|
  {
    && t + 1 < |p.flags| && t + 1 < |p.regs| && t + 1 < |p.slots|
    && |p.view.entry| == |p.regs[t]| == |p.regs[t + 1]| == 16 && |p.slots[t]| == |p.slots[t + 1]| == 4
    && Retires(b.items[t].inst, p.regs[t], p.regs[t + 1])
    && (PreservesFlags(b.items[t].inst) ==> p.flags[t + 1] == p.flags[t])
    && p.slots[t + 1] == SlotsAfter(b, t, OpAt(b, t), p.view, b.items[t].inst, p.flags[t], p.regs[t], p.slots[t])
  }

  function OpAt(b: Body, t: nat): Op
    requires b.conf.Valid()
  {
    if t < |b.Final().ops| then b.Final().ops[t] else Plain
  }

  /** The first len instructions of one pass. */
  ghost predicate PassRun(b: Body, p: Pass, len: nat)
    requires b.conf.Valid()
  {
    && len <= |b.items| && len < |p.regs| && len < |p.flags| && len < |p.slots|
    && p.view.entry == p.regs[0] && |p.regs[0]| == 16 && |p.slots[0]| == 4 && p.view.windows == b.windows
    && forall t: nat :: t < len ==> PassStep(b, p, t)
  }

  /** The identity whose guards are patched at a slot. */
  function Owner(b: Body, slot: nat): Identity
    requires b.conf.Valid() && b.Patches(slot)
  {
    b.Final().first[slot].value.identity
  }

  /** A patched slot is empty or holds what its owner would publish. */
  ghost predicate Ready(b: Body, v: View, regs: seq<Word>, slots: seq<int>, k: nat)
    requires b.conf.Valid() && |regs| == |v.entry| == 16 && |slots| == 4
  {
    b.Patches(k) ==> slots[k] == 0 || slots[k] == SlotValue(v, Owner(b, k), regs)
  }

  /** The slots available at this point under these flags hold valid pointers. */
  ghost predicate Available(c: Cache, v: View, flags: Flags, regs: seq<Word>, slots: seq<int>, k: nat)
    requires Shaped(c) && k < 4 && |regs| == |v.entry| == 16 && |slots| == 4
  {
    c.entries[k].Some? && flags in c.entries[k].value.coverage ==>
      slots[k] == SlotValue(v, c.entries[k].value.identity, regs)
  }

  ghost predicate InShape(b: Body, p: Pass, t: nat) {
    && t <= |b.items| && t < |p.regs| && t < |p.flags| && t < |p.slots|
    && |p.regs[t]| == |p.view.entry| == 16 && |p.slots[t]| == 4
  }

  ghost predicate AvailableAt(b: Body, p: Pass, t: nat, k: nat)
    requires b.conf.Valid() && k < 4 && InShape(b, p, t)
  {
    Available(Compile(EMPTY, b.conf, b.items[..t]), p.view, p.flags[t], p.regs[t], p.slots[t], k)
  }

  /** A patched slot that its owner does not share, or whose first guard is ahead. */
  ghost predicate Reserved(b: Body, t: nat, k: nat)
    requires b.conf.Valid() && k < 4
  {
    b.Patches(k) && (!b.Final().mixed[k] || t <= b.Final().first[k].value.branch)
  }

  ghost predicate Holds(b: Body, p: Pass, t: nat)
    requires b.conf.Valid()
  {
    && InShape(b, p, t)
    && (forall k: nat :: k < 4 ==> AvailableAt(b, p, t, k))
    && (forall k: nat :: k < 4 && Reserved(b, t, k) ==> Ready(b, p.view, p.regs[t], p.slots[t], k))
  }

  /** A patched guard belongs to its slot's owner and is its first guard, or the
      slot was never shared. */
  lemma PatchedGuard(b: Body, t: nat)
    requires b.conf.Valid() && t in b.Patched()
    ensures t < |b.items| && var op := OpAt(b, t);
            op.Guarded? && b.Patches(op.slot) && op.identity == Owner(b, op.slot) &&
            (t == b.Final().first[op.slot].value.branch || !b.Final().mixed[op.slot])
  {
    hide Compile, PatchesFirst, PatchedGuards;
    CompileTidy(b.conf, b.items);
    FinalizedGuard(b.Final(), b.conf, b.windows, b.Facts(), t);
  }

  /** The guard at t on a slot that is patched: the slot is still only its owner's. */
  lemma GuardOnPatched(b: Body, t: nat, k: nat)
    requires b.conf.Valid() && t < |b.items| && OpAt(b, t).Guarded? && OpAt(b, t).slot == k && b.Patches(k)
    ensures b.Final().first[k].value.branch <= t
    ensures !b.Final().mixed[k] ==> OpAt(b, t).identity == Owner(b, k)
  {
    hide Compile;
    CompileTidy(b.conf, b.items);
    assert GuardsTidy(b.Final(), k);
  }

  /** What the access at t finds in its slot is what it would publish. */
  lemma LoadedValid(b: Body, p: Pass, t: nat)
    requires b.conf.Valid() && t < |b.items| && Holds(b, p, t) && !OpAt(b, t).Plain?
    ensures Loaded(b, t, OpAt(b, t), p.view, p.regs[t], p.slots[t]) == SlotValue(p.view, OpAt(b, t).identity, p.regs[t])
  {
    hide SlotValue, Emit, Observe, Compile;
    var op, c := OpAt(b, t), Compile(EMPTY, b.conf, b.items[..t]);
    CompiledOp(b.conf, b.items, t);
    if op.Use? && op.slot < 4 {
      CompileTidy(b.conf, b.items[..t]);
      assert EntryTidy(c.coverageUsed, c.entries[op.slot].value);
      AllValues(p.flags[t]);
      assert AvailableAt(b, p, t, op.slot);
    } else if Skips(b, t, op, p.slots[t]) {
      PatchedGuard(b, t);
      assert Ready(b, p.view, p.regs[t], p.slots[t], op.slot);
    }
  }

  /** Publishing, skipping or not executing leaves every slot available for the
      flags its entry claims. */
  lemma EmitAvailable(b: Body, p: Pass, t: nat, k: nat)
    requires b.conf.Valid() && t < |b.items| && k < 4 && Holds(b, p, t) && PassStep(b, p, t)
    ensures Available(Emit(Compile(EMPTY, b.conf, b.items[..t]), b.conf, b.items[t]),
                      p.view, p.flags[t], p.regs[t], p.slots[t + 1], k)
  {
    hide SlotValue, Observe, FindSlot, PartialSlot, Skips, ALL_VALUES, Compile, SlotFor, Remembered, BeginGuard, ConditionCoverage;
    var op, c := OpAt(b, t), Compile(EMPTY, b.conf, b.items[..t]);
    CompiledOp(b.conf, b.items, t);
    assert AvailableAt(b, p, t, k);
    if op.Guarded? {
      LoadedValid(b, p, t);
      EmittedEntry(c, b.conf, b.items[t], p.flags[t], k);
    }
  }

  /** What the slot entries claim once a guarded access is emitted. */
  lemma EmittedEntry(c: Cache, conf: Config, item: Item, flags: Flags, k: nat)
    requires Shaped(c) && conf.Valid() && OpFor(c, conf, item).Guarded? && k < 4
    ensures var op, d := OpFor(c, conf, item), Emit(c, conf, item);
            if k != op.slot then d.entries[k] == c.entries[k]
            else
              && d.entries[k].Some? && d.entries[k].value.identity == op.identity
              && (flags in d.entries[k].value.coverage ==>
                    || Executes(item.inst, flags)
                    || (c.entries[k].Some? && c.entries[k].value.identity == op.identity && flags in c.entries[k].value.coverage))
  {
    hide FindSlot, PartialSlot, SlotFor, Partial, ALL_VALUES;
    AllValues(flags);
    var op := OpFor(c, conf, item);
    BegunKeeps(c, conf, op.slot, op.identity);
  }

  /** Register writes revoke or keep; flag writes end what was only partial. */
  lemma ObserveAvailable(c: Cache, v: View, inst: Instruction, flags: Flags, flags': Flags,
                         regs: seq<Word>, regs': seq<Word>, slots: seq<int>, k: nat)
    requires Tidy(c) && k < 4 && |regs| == |regs'| == |v.entry| == 16 && |slots| == 4
    requires Available(c, v, flags, regs, slots, k)
    requires forall r: Reg :: r !in WrittenRegisters(inst) ==> regs'[r] == regs[r]
    requires PreservesFlags(inst) ==> flags' == flags
    ensures Available(Observe(c, inst), v, flags', regs', slots, k)
  {
    hide SlotValue, PreservesFlags, WrittenRegisters, Inputs, AllGuardsTidy, LateTidy, ALL_VALUES;
    AllValues(flags);
    if c.entries[k].Some? && Inputs(c.entries[k].value.identity) * WrittenRegisters(inst) == {} {
      assert EntryTidy(c.coverageUsed, c.entries[k].value);
      var read, lost := Inputs(c.entries[k].value.identity), WrittenRegisters(inst);
      assert forall r <- read :: r in lost ==> r in read * lost;
      ValueStays(v, c.entries[k].value.identity, regs, regs');
    }
  }

  /** A patched slot's owner keeps its value while the body runs. */
  lemma OwnerStays(b: Body, v: View, t: nat, k: nat, regs: seq<Word>, regs': seq<Word>)
    requires b.conf.Valid() && t < |b.items| && b.Patches(k)
    requires |regs| == |regs'| == |v.entry| == 16
    requires forall r: Reg :: r !in WrittenRegisters(b.items[t].inst) ==> regs'[r] == regs[r]
    ensures SlotValue(v, Owner(b, k), regs') == SlotValue(v, Owner(b, k), regs)
  {
    hide SlotValue, Compile, PatchesFirst, Inputs, WrittenRegisters;
    CompiledOp(b.conf, b.items, t);
    PatchedInputs(b.Final(), k, b.windows, b.Facts(), WrittenRegisters(b.items[t].inst));
    ValueStays(v, Owner(b, k), regs, regs');
  }

  lemma PatchedInputs(c: Cache, slot: nat, windows: seq<WindowView>, facts: Facts, lost: set<Reg>)
    requires Shaped(c) && Wellformed(facts) && slot < 4 && PatchesFirst(c, slot, windows, facts) && lost <= c.written
    ensures c.first[slot].Some?
    ensures forall r <- Inputs(c.first[slot].value.identity) :: r !in lost
  {
    hide Inputs;
    var id := c.first[slot].value.identity;
    forall r <- Inputs(id)
      ensures r !in lost
    {
      assert r in c.written ==> r in c.written * Inputs(id);
    }
  }

  lemma StepReady(b: Body, p: Pass, t: nat, k: nat)
    requires b.conf.Valid() && t < |b.items| && k < 4 && Holds(b, p, t) && PassStep(b, p, t)
    requires Reserved(b, t + 1, k)
    ensures Ready(b, p.view, p.regs[t + 1], p.slots[t + 1], k)
  {
    hide SlotValue, PatchesFirst, Compile, Retires;
    assert Reserved(b, t, k);
    Frame(b.items[t].inst, p.regs[t], p.regs[t + 1]);
    OwnerStays(b, p.view, t, k, p.regs[t], p.regs[t + 1]);
    if OpAt(b, t).Guarded? && OpAt(b, t).slot == k {
      CompiledLength(b);
      GuardOnPatched(b, t, k);
    }
  }

  lemma CompiledLength(b: Body)
    requires b.conf.Valid()
    ensures |b.Final().ops| == |b.items|
  {
    CompileTidy(b.conf, b.items);
  }

  lemma Frame(inst: Instruction, before: seq<Word>, after: seq<Word>)
    requires Retires(inst, before, after)
    ensures forall r: Reg :: r !in WrittenRegisters(inst) ==> after[r] == before[r]
  {
  }

  /** The cache after one more instruction of the body. */
  lemma CompileNext(b: Body, t: nat)
    requires b.conf.Valid() && t < |b.items|
    ensures var c := Compile(EMPTY, b.conf, b.items[..t]);
            && Tidy(Emit(c, b.conf, b.items[t]))
            && Compile(EMPTY, b.conf, b.items[..t + 1]) == Observe(Emit(c, b.conf, b.items[t]), b.items[t].inst)
  {
    hide Emit, Observe;
    assert b.items[..t + 1][..t] == b.items[..t];
    CompileTidy(b.conf, b.items[..t]);
    EmitTidy(Compile(EMPTY, b.conf, b.items[..t]), b.conf, b.items[t]);
  }

  lemma StepAvailable(b: Body, p: Pass, t: nat, k: nat)
    requires b.conf.Valid() && t < |b.items| && k < 4 && Holds(b, p, t) && PassStep(b, p, t)
    ensures InShape(b, p, t + 1) && AvailableAt(b, p, t + 1, k)
  {
    hide SlotValue, PatchesFirst, Compile, Emit, Observe, Available, Ready, Tidy, Retires, PreservesFlags, Holds;
    var c, inst := Compile(EMPTY, b.conf, b.items[..t]), b.items[t].inst;
    CompileNext(b, t);
    EmitAvailable(b, p, t, k);
    Frame(inst, p.regs[t], p.regs[t + 1]);
    ObserveAvailable(Emit(c, b.conf, b.items[t]), p.view, inst, p.flags[t], p.flags[t + 1],
                     p.regs[t], p.regs[t + 1], p.slots[t + 1], k);
  }

  lemma StepHolds(b: Body, p: Pass, t: nat)
    requires b.conf.Valid() && t < |b.items| && Holds(b, p, t) && PassStep(b, p, t)
    ensures Holds(b, p, t + 1)
  {
    hide SlotValue, Available, Ready, Retires, PreservesFlags, SlotsAfter, AvailableAt, Reserved;
    var next := t + 1;
    forall k: nat | k < 4
      ensures AvailableAt(b, p, next, k)
    {
      StepAvailable(b, p, t, k);
    }
    forall k: nat | k < 4 && Reserved(b, next, k)
      ensures Ready(b, p.view, p.regs[next], p.slots[next], k)
    {
      StepReady(b, p, t, k);
    }
  }

  /** Every patched slot is ready at the start of a pass. */
  ghost predicate Starts(b: Body, v: View, regs: seq<Word>, slots: seq<int>)
    requires b.conf.Valid() && |regs| == |v.entry| == 16 && |slots| == 4
  {
    forall k: nat :: k < 4 ==> Ready(b, v, regs, slots, k)
  }

  lemma {:induction false} PassHolds(b: Body, p: Pass, len: nat, t: nat)
    requires b.conf.Valid() && PassRun(b, p, len) && t <= len
    requires Starts(b, p.view, p.regs[0], p.slots[0])
    ensures Holds(b, p, t)
  {
    hide PassStep, Ready, Body.Patches, SlotValue;
    if t == 0 {
      StartHolds(b, p);
    } else {
      PassHolds(b, p, len, t - 1);
      assert PassStep(b, p, t - 1);
      StepHolds(b, p, t - 1);
    }
  }

  lemma StartHolds(b: Body, p: Pass)
    requires b.conf.Valid() && PassRun(b, p, 0) && Starts(b, p.view, p.regs[0], p.slots[0])
    ensures Holds(b, p, 0)
  {
    hide Ready, PatchesFirst, SlotValue;
    assert b.items[..0] == [];
  }

  /** A pass that reaches the backedge. */
  ghost predicate Closes(b: Body, p: Pass, next: Pass)
    requires b.conf.Valid()
  {
    && b.closed && PassRun(b, p, |b.items|) && PassRun(b, next, 0)
    && next.regs[0] == p.regs[|b.items|] && next.slots[0] == p.slots[|b.items|]
    && next.view.bias == p.view.bias && next.view.admits == p.view.admits && next.view.unset == p.view.unset
  }

  lemma RegsAt(b: Body, p: Pass, len: nat, t: nat)
    requires b.conf.Valid() && PassRun(b, p, len) && t <= len
    ensures |p.regs[t]| == 16
    ensures t < len ==> Retires(b.items[t].inst, p.regs[t], p.regs[t + 1])
  {
    hide Retires, SlotsAfter, PreservesFlags;
    if t < len {
      assert PassStep(b, p, t);
    } else if t > 0 {
      assert PassStep(b, p, t - 1);
    }
  }

  lemma PassExecution(b: Body, p: Pass)
    requires b.conf.Valid() && PassRun(b, p, |b.items|)
    ensures Execution(Instructions(b.items), p.regs[..|b.items| + 1])
  {
    hide PassStep, Retires;
    var insts, states := Instructions(b.items), p.regs[..|b.items| + 1];
    forall i: nat | i < |states|
      ensures |states[i]| == 16
    {
      RegsAt(b, p, |b.items|, i);
    }
    forall i: nat | i < |insts|
      ensures Retired(insts, states, i)
    {
      RegsAt(b, p, |b.items|, i);
    }
  }

  /** The base of a patched window is back at its entry value after a pass. */
  lemma BaseReturns(b: Body, p: Pass, base: Reg)
    requires b.conf.Valid() && PassRun(b, p, |b.items|) && b.Facts().values[base] == Some(UNCHANGED)
    ensures |p.regs[|b.items|]| == 16 && p.regs[|b.items|][base] == p.regs[0][base]
  {
    hide PassStep, Execution, ObservedAll, Instructions;
    var insts, states := Instructions(b.items), p.regs[..|b.items| + 1];
    PassExecution(b, p);
    InitialSound(p.regs[0]);
    RunSound(INITIAL, insts, states, p.regs[0]);
    UnchangedAt(b.Facts(), p.regs[0], states[|insts|], base);
  }

  lemma UnchangedAt(f: Facts, entry: seq<Word>, current: seq<Word>, r: Reg)
    requires Sound(f, entry, current) && f.values[r] == Some(UNCHANGED)
    ensures current[r] == entry[r]
  {
  }

  /** The owner of a patched slot publishes the same value in the next pass. */
  lemma OwnerReturns(b: Body, p: Pass, next: Pass, k: nat)
    requires b.conf.Valid() && Closes(b, p, next) && b.Patches(k) && |p.regs[|b.items|]| == 16
    ensures SlotValue(next.view, Owner(b, k), next.regs[0]) == SlotValue(p.view, Owner(b, k), p.regs[|b.items|])
  {
    hide Compile, EffectiveAddress;
    var id := Owner(b, k);
    if id.Window? {
      BaseReturns(b, p, b.windows[id.index].base);
    }
  }

  lemma CloseReady(b: Body, p: Pass, next: Pass, k: nat)
    requires b.conf.Valid() && Closes(b, p, next) && k < 4 && Holds(b, p, |b.items|)
    ensures Ready(b, next.view, next.regs[0], next.slots[0], k)
  {
    hide SlotValue, Compile;
    if b.Patches(k) {
      OwnerReturns(b, p, next, k);
      if b.Final().mixed[k] {
        CompileTidy(b.conf, b.items);
        assert b.items[..|b.items|] == b.items;
        assert AvailableAt(b, p, |b.items|, k);
        AllValues(p.flags[|b.items|]);
        assert EntryTidy(b.Final().coverageUsed, b.Final().entries[k].value);
      } else {
        assert Reserved(b, |b.items|, k);
      }
    }
  }

  /** Any number of passes, the last of which may stop anywhere. Patched slots
      are cleared once, on entry to the native invocation. */
  ghost predicate Loop(b: Body, passes: seq<Pass>, len: nat)
    requires b.conf.Valid()
  {
    && passes != [] && PassRun(b, passes[|passes| - 1], len) && PassRun(b, passes[0], 0)
    && (forall k: nat :: k < 4 && b.Patches(k) ==> passes[0].slots[0][k] == 0)
    && forall i: nat :: i + 1 < |passes| ==> Linked(b, passes, i)
  }

  ghost predicate Linked(b: Body, passes: seq<Pass>, i: nat)
    requires b.conf.Valid() && i + 1 < |passes|
  {
    Closes(b, passes[i], passes[i + 1])
  }

  lemma {:induction false} PassStarts(b: Body, passes: seq<Pass>, len: nat, i: nat)
    requires b.conf.Valid() && Loop(b, passes, len) && i < |passes|
    ensures PassRun(b, passes[i], 0) && Starts(b, passes[i].view, passes[i].regs[0], passes[i].slots[0])
  {
    hide Ready, PassStep, Holds, Body.Patches, Body.Final;
    if i > 0 {
      PassStarts(b, passes, len, i - 1);
      assert Linked(b, passes, i - 1);
      PassHolds(b, passes[i - 1], |b.items|, |b.items|);
      forall k: nat | k < 4
        ensures Ready(b, passes[i].view, passes[i].regs[0], passes[i].slots[0], k)
      {
        CloseReady(b, passes[i - 1], passes[i], k);
      }
    } else {
      FirstReady(b, passes, len);
    }
  }

  lemma FirstReady(b: Body, passes: seq<Pass>, len: nat)
    requires b.conf.Valid() && Loop(b, passes, len)
    ensures PassRun(b, passes[0], 0) && Starts(b, passes[0].view, passes[0].regs[0], passes[0].slots[0])
  {
    hide SlotValue, PassStep, PatchesFirst, Compile;
  }

  /** On every run, in every pass, each access is formed from exactly the slot
      value that validating it there would publish: a reused slot dominates this
      point or its first publication survived the backedge. */
  lemma NeverStale(b: Body, passes: seq<Pass>, len: nat, t: nat)
    requires b.conf.Valid() && Loop(b, passes, len) && t < len && !OpAt(b, t).Plain?
    ensures var p := passes[|passes| - 1];
            t < |p.regs| && t < |p.slots| && |p.regs[t]| == |p.view.entry| == 16 && |p.slots[t]| == 4 &&
            Loaded(b, t, OpAt(b, t), p.view, p.regs[t], p.slots[t]) == SlotValue(p.view, OpAt(b, t).identity, p.regs[t])
  {
    hide SlotValue, PassStep, Ready, Body.Final, Body.Patches, Loaded, Available;
    var p := passes[|passes| - 1];
    PassStarts(b, passes, len, |passes| - 1);
    PassHolds(b, p, len, t);
    LoadedValid(b, p, t);
  }
}
