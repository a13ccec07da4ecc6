/** What emission keeps true of recorded guards and slot entries. */
module CacheGuards {
  import opened Wrappers
  import opened Isa
  import opened AddressDisplacements
  import opened CachePointers
  import opened AddressCache
  import GuestMachine

  /** Facts about the recorded guards that later emission keeps. */
  ghost predicate Tidy(c: Cache) {
    Shaped(c) && AllGuardsTidy(c) && LateTidy(c) && EntriesTidy(c)
  }

  ghost predicate AllGuardsTidy(c: Cache)
    requires Shaped(c)
  {
    forall k: nat :: k < 4 ==> GuardsTidy(c, k)
  }

  /** The first guard of a slot comes before every other and names its identity. */
  ghost predicate GuardsTidy(c: Cache, k: nat)
    requires Shaped(c) && k < 4
  {
    && (forall j: nat :: j < |c.ops| && c.ops[j].Guarded? && c.ops[j].slot == k ==>
          c.first[k].Some? && c.first[k].value.branch <= j &&
          (!c.mixed[k] ==> c.ops[j].identity == c.first[k].value.identity))
    && (c.first[k].Some? ==>
          c.first[k].value.branch < |c.ops| && c.ops[c.first[k].value.branch] == Guarded(k, c.first[k].value.identity))
  }

  ghost predicate LateTidy(c: Cache) {
    forall g <- c.late :: g.branch < |c.ops| && c.ops[g.branch].Guarded? && c.ops[g.branch].slot == g.slot
  }

  ghost predicate EntriesTidy(c: Cache)
    requires Shaped(c)
  {
    forall k: nat :: k < 4 && c.entries[k].Some? ==> EntryTidy(c.coverageUsed, c.entries[k].value)
  }

  predicate EntryTidy(coverageUsed: bool, e: Entry) {
    (e.dominates <==> e.coverage == ALL_VALUES) && (!coverageUsed ==> e.dominates)
  }

  lemma UnconditionalCovers(s: set<Flags>)
    ensures s + ConditionCoverage(14) == ALL_VALUES
  {
    forall f | f in s
      ensures f in ALL_VALUES
    {
      AllValues(f);
    }
  }

  lemma GuardedEntries(c: Cache, slot: nat, id: Identity, condition: nat)
    requires Shaped(c) && EntriesTidy(c) && slot < 4 && c.first[slot].Some?
    ensures EntriesTidy(Remembered(c, slot, id, condition))
  {
    UnconditionalCovers({});
    if c.entries[slot].Some? {
      UnconditionalCovers(c.entries[slot].value.coverage);
    }
    hide ConditionCoverage;
  }

  /** What a guarded access does to the recorded guards. */
  lemma GuardedFields(c: Cache, conf: Config, slot: nat, id: Identity, condition: nat)
    requires Shaped(c) && slot < 4
    ensures var d := Remembered(BeginGuard(c, conf, slot, id), slot, id, condition);
            && d.ops == c.ops + [Guarded(slot, id)]
            && (forall k: nat :: k < 4 && k != slot ==> d.first[k] == c.first[k]) && d.first[slot].Some?
            && (if c.first[slot].Some?
                then d.first[slot].value.(target := None) == c.first[slot].value.(target := None)
                else d.first[slot].value.(target := None) == Guard(id, |c.ops|, None))
            && d.mixed == c.mixed[slot := c.mixed[slot] || d.first[slot].value.identity != id]
  {
    hide ConditionCoverage, Partial;
  }

  lemma GuardedGuards(c: Cache, conf: Config, slot: nat, id: Identity, condition: nat)
    requires Shaped(c) && AllGuardsTidy(c) && slot < 4
    ensures AllGuardsTidy(Remembered(BeginGuard(c, conf, slot, id), slot, id, condition))
  {
    hide Remembered, BeginGuard, GuardsTidy;
    BegunKeeps(c, conf, slot, id);
    GuardedFields(c, conf, slot, id, condition);
    var d := Remembered(BeginGuard(c, conf, slot, id), slot, id, condition);
    forall k: nat | k < 4
      ensures GuardsTidy(d, k)
    {
      assert GuardsTidy(c, k);
      GuardsFollow(c, d, slot, id, k);
    }
  }

  lemma GuardsFollow(c: Cache, d: Cache, slot: nat, id: Identity, k: nat)
    requires Shaped(c) && Shaped(d) && slot < 4 && k < 4 && GuardsTidy(c, k) && d.ops == c.ops + [Guarded(slot, id)]
    requires k != slot ==> d.first[k] == c.first[k] && d.mixed[k] == c.mixed[k]
    requires k == slot ==>
               && d.first[slot].Some?
               && d.first[slot].value.(target := None) ==
                  (if c.first[slot].Some? then c.first[slot].value.(target := None) else Guard(id, |c.ops|, None))
               && d.mixed[slot] == (c.mixed[slot] || d.first[slot].value.identity != id)
    ensures GuardsTidy(d, k)
  {
  }

  lemma GuardedLate(c: Cache, conf: Config, slot: nat, id: Identity, condition: nat)
    requires Shaped(c) && LateTidy(c) && slot < 4
    ensures LateTidy(Remembered(BeginGuard(c, conf, slot, id), slot, id, condition))
  {
    hide ConditionCoverage, Partial;
  }

  lemma AppendTidy(c: Cache, op: Op)
    requires Tidy(c) && !op.Guarded?
    ensures Tidy(c.(ops := c.ops + [op]))
  {
    forall k: nat | k < 4
      ensures GuardsTidy(c.(ops := c.ops + [op]), k)
    {
      assert GuardsTidy(c, k);
    }
  }

  lemma BegunKeeps(c: Cache, conf: Config, slot: nat, id: Identity)
    requires Shaped(c) && slot < 4
    ensures var b := BeginGuard(c, conf, slot, id);
            b.first[slot].Some? && b.entries == c.entries && b.coverageUsed == c.coverageUsed && b.ops == c.ops
  {
  }

  /** The access one instruction emits. */
  function OpFor(c: Cache, conf: Config, item: Item): Op
    requires Shaped(c) && conf.Valid()
  {
    if item.access.None? then Plain
    else
      var id := item.access.value.1;
      var hit := FindSlot(c, conf, id, 0);
      if hit < conf.slots then Use(hit, id)
      else if item.inst.condition != 14 && !conf.conditional then Uncached(id)
      else Guarded(SlotFor(c, conf, id), id)
  }

  lemma EmitTidy(c: Cache, conf: Config, item: Item)
    requires Tidy(c) && conf.Valid()
    ensures Tidy(Emit(c, conf, item))
    ensures Emit(c, conf, item).ops == c.ops + [OpFor(c, conf, item)]
  {
    var op := OpFor(c, conf, item);
    if op.Guarded? {
      BegunKeeps(c, conf, op.slot, op.identity);
      GuardedGuards(c, conf, op.slot, op.identity, item.inst.condition);
      GuardedLate(c, conf, op.slot, op.identity, item.inst.condition);
      hide BeginGuard, GuardsTidy, EntryTidy, ConditionCoverage;
      GuardedEntries(BeginGuard(c, conf, op.slot, op.identity), op.slot, op.identity, item.inst.condition);
    } else {
      AppendTidy(c, op);
    }
  }

  lemma ObserveTidy(c: Cache, inst: Instruction)
    requires Tidy(c)
    ensures Tidy(Observe(c, inst)) && Observe(c, inst).ops == c.ops
  {
    hide PreservesFlags, WrittenRegisters;
    forall k: nat | k < 4
      ensures GuardsTidy(Observe(c, inst), k)
    {
      assert GuardsTidy(c, k);
    }
  }

  /** A body's operations: one for each instruction, chosen from the cache there. */
  lemma {:induction false} CompileTidy(conf: Config, items: seq<Item>)
    requires conf.Valid()
    ensures Tidy(Compile(EMPTY, conf, items)) && |Compile(EMPTY, conf, items).ops| == |items|
    decreases |items|
  {
    hide Emit, Observe, OpFor;
    if items != [] {
      var last := |items| - 1;
      CompileTidy(conf, items[..last]);
      EmitTidy(Compile(EMPTY, conf, items[..last]), conf, items[last]);
      ObserveTidy(Emit(Compile(EMPTY, conf, items[..last]), conf, items[last]), items[last].inst);
    }
  }

  lemma {:induction false} CompiledOp(conf: Config, items: seq<Item>, t: nat)
    requires conf.Valid() && t < |items|
    ensures |Compile(EMPTY, conf, items).ops| == |items|
    ensures Compile(EMPTY, conf, items).ops[t] == OpFor(Compile(EMPTY, conf, items[..t]), conf, items[t])
    ensures WrittenRegisters(items[t].inst) <= Compile(EMPTY, conf, items).written
    decreases |items|
  {
    hide Emit, OpFor, WrittenRegisters, Tidy;
    var last := |items| - 1;
    var c := Compile(EMPTY, conf, items[..last]);
    CompileTidy(conf, items[..last]);
    EmitTidy(c, conf, items[last]);
    ObserveWrites(c, conf, items[last]);
    if t < last {
      CompiledOp(conf, items[..last], t);
      assert items[..last][..t] == items[..t];
    }
  }

  lemma ObserveWrites(c: Cache, conf: Config, item: Item)
    requires Shaped(c) && conf.Valid()
    ensures var d := Observe(Emit(c, conf, item), item.inst);
            c.written <= d.written && WrittenRegisters(item.inst) <= d.written && d.ops == Emit(c, conf, item).ops
  {
    hide FindSlot, SlotFor, WrittenRegisters, PreservesFlags;
  }

  /** A patched guard belongs to the identity of its slot's first guard, and is
      that guard unless the slot was never shared. */
  lemma FinalizedGuard(c: Cache, conf: Config, windows: seq<WindowView>, facts: Facts, t: nat)
    requires Tidy(c) && conf.Valid() && Wellformed(facts) && t in PatchedGuards(c, conf, windows, facts)
    ensures t < |c.ops| && c.ops[t].Guarded?
    ensures var slot := c.ops[t].slot;
            slot < conf.slots && PatchesFirst(c, slot, windows, facts) &&
            c.ops[t].identity == c.first[slot].value.identity && (t == c.first[slot].value.branch || !c.mixed[slot])
  {
    if slot: nat :| slot < conf.slots && PatchesFirst(c, slot, windows, facts) && t == c.first[slot].value.branch {
      assert GuardsTidy(c, slot);
    } else {
      var g :| g in c.late && g.slot < conf.slots && PatchesFirst(c, g.slot, windows, facts) &&
               !c.mixed[g.slot] && t == g.branch;
      assert GuardsTidy(c, g.slot);
    }
  }

  /** The classification is right about every instruction executed in line: the
      NZCV snapshot that partial coverage refers to is still current after it. */
  lemma PreservesFlagsSound(f: GuestMachine.Families, inst: Instruction, s: GuestMachine.State)
    requires PreservesFlags(inst) && !EffectsOf(inst).boundary
    ensures GuestMachine.Step(f, inst, s).flags == s.flags
  {
    hide EffectsOf, GuestMachine.Step;
    GuestMachine.EffectsSound(f, inst, s, s, {});
    var after := GuestMachine.Step(f, inst, s).flags;
    assert after.Get(N) == s.flags.Get(N) && after.Get(Z) == s.flags.Get(Z);
    assert after.Get(C) == s.flags.Get(C) && after.Get(V) == s.flags.Get(V);
  }
}
