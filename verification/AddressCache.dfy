/** Availability of validated pointers in two or four slots, at compile time.

Conditional publications count once the conditions that published cover every
NZCV value under one flag snapshot; guards recorded on the way can be patched to
skip validation on later passes of a closed body.
 */
module AddressCache {
  import opened Words
  import opened Wrappers
  import opened Isa
  import opened AddressDisplacements
  import opened AddressKeys
  import opened CachePointers

  const ALL_VALUES: set<Flags> :=
    {Flags(false, false, false, false), Flags(false, false, false, true), Flags(false, false, true, false),
     Flags(false, false, true, true), Flags(false, true, false, false), Flags(false, true, false, true),
     Flags(false, true, true, false), Flags(false, true, true, true), Flags(true, false, false, false),
     Flags(true, false, false, true), Flags(true, false, true, false), Flags(true, false, true, true),
     Flags(true, true, false, false), Flags(true, true, false, true), Flags(true, true, true, false),
     Flags(true, true, true, true)}

  lemma AllValues(f: Flags)
    ensures f in ALL_VALUES
  {
    if f.n { if f.z { if f.c { } else { } } else { if f.c { } else { } } }
    else { if f.z { if f.c { } else { } } else { if f.c { } else { } } }
  }

  /** The NZCV values under which a publication happens. */
  function ConditionCoverage(condition: nat): set<Flags> {
    if condition == 14 then ALL_VALUES else set f | f in ALL_VALUES && ConditionPassed(condition, f)
  }

  /** Instructions that leave NZCV alone whatever happens at run time. */
  predicate PreservesFlags(inst: Instruction) {
    var effects := EffectsOf(inst);
    effects.possibleWrite == {} &&
    (!effects.boundary ||
     inst.kind.Transfer? || inst.kind.DualTransfer? || inst.kind.MultipleTransfer? || inst.kind.VectorTransfer? ||
     inst.kind.ExclusiveTransfer? || inst.kind.Swap? || inst.kind.ClearExclusive?)
  }

  datatype Entry = Entry(identity: Identity, coverage: set<Flags>, dominates: bool)

  /** A recorded validation: where its branch is and where it may skip to. */
  datatype Guard = Guard(identity: Identity, branch: nat, target: Option<nat>)

  datatype LateGuard = LateGuard(slot: nat, branch: nat, target: Option<nat>)

  /** One instruction's emitted memory access. */
  datatype Op =
    | Plain
    | Use(slot: nat, identity: Identity)
    | Guarded(slot: nat, identity: Identity)
    | Uncached(identity: Identity)

  datatype Config = Config(slots: nat, conditional: bool) {
    predicate Valid() {
      slots == 2 || slots == 4
    }
  }

  datatype Cache = Cache(
    entries: seq<Option<Entry>>, first: seq<Option<Guard>>, mixed: seq<bool>, late: seq<LateGuard>,
    next: nat, written: set<Reg>, coverageUsed: bool, ops: seq<Op>)

  const EMPTY: Cache :=
    Cache([None, None, None, None], [None, None, None, None], [false, false, false, false], [], 0, {}, false, [])

  predicate Shaped(c: Cache) {
    |c.entries| == 4 && |c.first| == 4 && |c.mixed| == 4
  }

  /** The slot whose publications dominate this point, or the slot count. */
  function FindSlot(c: Cache, conf: Config, id: Identity, from: nat): (slot: nat)
    requires Shaped(c) && conf.Valid() && from <= conf.slots
    ensures from <= slot <= conf.slots
    ensures slot < conf.slots ==> c.entries[slot].Some? && c.entries[slot].value.dominates && c.entries[slot].value.identity == id
    decreases conf.slots - from
  {
    if from == conf.slots ||
       (c.entries[from].Some? && c.entries[from].value.dominates && c.entries[from].value.identity == id)
    then from else FindSlot(c, conf, id, from + 1)
  }

  predicate Partial(c: Cache, slot: nat, id: Identity)
    requires Shaped(c) && slot < 4
  {
    c.entries[slot].Some? && !c.entries[slot].value.dominates && c.entries[slot].value.identity == id
  }

  function PartialSlot(c: Cache, conf: Config, id: Identity, from: nat): (slot: nat)
    requires Shaped(c) && conf.Valid() && from <= conf.slots
    ensures from <= slot <= conf.slots && (slot < conf.slots ==> Partial(c, slot, id))
    decreases conf.slots - from
  {
    if from == conf.slots || Partial(c, from, id) then from else PartialSlot(c, conf, id, from + 1)
  }

  /** A conditional publication is reused before another slot is spent. */
  function SlotFor(c: Cache, conf: Config, id: Identity): (slot: nat)
    requires Shaped(c) && conf.Valid()
    ensures slot < conf.slots
  {
    var partial := PartialSlot(c, conf, id, 0);
    if c.coverageUsed && partial < conf.slots then partial else c.next % conf.slots
  }

  function BeginGuard(c: Cache, conf: Config, slot: nat, id: Identity): (d: Cache)
    requires Shaped(c) && slot < 4
    ensures Shaped(d)
  {
    if c.first[slot].None? then
      c.(first := c.first[slot := Some(Guard(id, |c.ops|, None))])
    else if Partial(c, slot, id) && !c.mixed[slot] then
      c.(late := c.late + [LateGuard(slot, |c.ops|, None)])
    else c
  }

  /** The slot's entry gains the flags under which this publication happens. */
  function Claimed(c: Cache, slot: nat, id: Identity, condition: nat): (d: Cache)
    requires Shaped(c) && slot < 4 && c.first[slot].Some?
    ensures Shaped(d)
  {
    var kept := c.entries[slot].Some? && c.entries[slot].value.identity == id;
    var coverage := (if kept then c.entries[slot].value.coverage else {}) + ConditionCoverage(condition);
    c.(entries := c.entries[slot := Some(Entry(id, coverage, coverage == ALL_VALUES))],
       next := if kept then c.next else c.next + 1,
       mixed := c.mixed[slot := c.mixed[slot] || c.first[slot].value.identity != id],
       coverageUsed := c.coverageUsed || condition != 14)
  }

  /** A recorded guard may skip to the end of its publication. */
  function Published(c: Cache, slot: nat, id: Identity): (d: Cache)
    requires Shaped(c) && slot < 4 && c.first[slot].Some?
    ensures Shaped(d)
  {
    var first := c.first[slot].value;
    var last := |c.late| - 1;
    c.(first := if first.target.None? && first.identity == id
                then c.first[slot := Some(first.(target := Some(|c.ops| + 1)))] else c.first,
       late := if last >= 0 && c.late[last].target.None? && c.late[last].slot == slot
               then c.late[last := c.late[last].(target := Some(|c.ops| + 1))] else c.late,
       ops := c.ops + [Guarded(slot, id)])
  }

  function Remembered(c: Cache, slot: nat, id: Identity, condition: nat): (d: Cache)
    requires Shaped(c) && slot < 4 && c.first[slot].Some?
    ensures Shaped(d)
  {
    Published(Claimed(c, slot, id, condition), slot, id)
  }

  datatype Item = Item(inst: Instruction, access: Option<(Key, Identity)>)

  /** Emission of one instruction's access. */
  function Emit(c: Cache, conf: Config, item: Item): (d: Cache)
    requires Shaped(c) && conf.Valid()
    ensures Shaped(d)
  {
    if item.access.None? then c.(ops := c.ops + [Plain])
    else
      var id := item.access.value.1;
      var hit := FindSlot(c, conf, id, 0);
      if hit < conf.slots then c.(ops := c.ops + [Use(hit, id)])
      else if item.inst.condition != 14 && !conf.conditional then c.(ops := c.ops + [Uncached(id)])
      else
        var slot := SlotFor(c, conf, id);
        Remembered(BeginGuard(c, conf, slot, id), slot, id, item.inst.condition)
  }

  /** Written inputs revoke entries; a flag write ends partial coverage. */
  function Observe(c: Cache, inst: Instruction): (d: Cache)
    requires Shaped(c)
    ensures Shaped(d)
  {
    var lost := WrittenRegisters(inst);
    var crossed := c.coverageUsed && !PreservesFlags(inst);
    c.(written := c.written + lost,
       entries := seq(4, slot requires 0 <= slot < 4 => After(c.entries[slot], lost, crossed)))
  }

  function After(entry: Option<Entry>, lost: set<Reg>, crossed: bool): Option<Entry> {
    if entry.None? || Inputs(entry.value.identity) * lost != {} then None
    else if crossed && !entry.value.dominates then Some(entry.value.(coverage := {}))
    else entry
  }

  function Compile(c: Cache, conf: Config, items: seq<Item>): (d: Cache)
    requires Shaped(c) && conf.Valid()
    ensures Shaped(d)
    decreases |items|
  {
    if items == [] then c
    else
      var last := |items| - 1;
      Observe(Emit(Compile(c, conf, items[..last]), conf, items[last]), items[last].inst)
  }

  /** Slots whose first guard may skip validation on later passes. */
  predicate PatchesFirst(c: Cache, slot: nat, windows: seq<WindowView>, facts: Facts)
    requires Shaped(c) && Wellformed(facts) && slot < 4
  {
    && c.first[slot].Some? && c.first[slot].value.target.Some?
    && c.entries[slot].Some? && c.entries[slot].value.identity == c.first[slot].value.identity
    && var id := c.first[slot].value.identity;
    && c.written * Inputs(id) == {} && !id.Segment?
    && (id.Window? ==> id.index < |windows| && facts.values[windows[id.index].base] == Some(UNCHANGED))
    && (c.entries[slot].value.dominates || !c.mixed[slot])
  }

  /** The patched guards of a body that closes on itself. */
  function PatchedGuards(c: Cache, conf: Config, windows: seq<WindowView>, facts: Facts): set<nat>
    requires Shaped(c) && conf.Valid() && Wellformed(facts)
  {
    (set slot | 0 <= slot < conf.slots && PatchesFirst(c, slot, windows, facts) :: c.first[slot].value.branch) +
    (set g | g in c.late && g.slot < conf.slots && PatchesFirst(c, g.slot, windows, facts) &&
             !c.mixed[g.slot] && g.target.Some? :: g.branch)
  }

  /** The guards patched on account of one slot. */
  ghost predicate PatchesOf(c: Cache, slot: nat, windows: seq<WindowView>, facts: Facts, t: nat)
    requires Shaped(c) && Wellformed(facts) && slot < 4
  {
    PatchesFirst(c, slot, windows, facts) &&
    (t == c.first[slot].value.branch ||
     (!c.mixed[slot] && exists g :: g in c.late && g.slot == slot && g.target.Some? && g.branch == t))
  }

  lemma FirstExists(c: Cache, slot: nat, windows: seq<WindowView>, facts: Facts)
    requires Shaped(c) && Wellformed(facts) && slot < 4 && PatchesFirst(c, slot, windows, facts)
    ensures c.first[slot].Some?
  {
  }

  lemma NotPatched(c: Cache, slot: nat, windows: seq<WindowView>, facts: Facts)
    requires Shaped(c) && Wellformed(facts) && slot < 4
    ensures !PatchesFirst(c, slot, windows, facts) ==> forall t: nat :: !PatchesOf(c, slot, windows, facts, t)
  {
  }

  lemma PatchesAre(c: Cache, conf: Config, windows: seq<WindowView>, facts: Facts)
    requires Shaped(c) && conf.Valid() && Wellformed(facts)
    ensures forall t: nat :: t in PatchedGuards(c, conf, windows, facts) <==>
              exists k: nat :: k < conf.slots && PatchesOf(c, k, windows, facts, t)
  {
    var heads := set slot | 0 <= slot < conf.slots && PatchesFirst(c, slot, windows, facts) :: c.first[slot].value.branch;
    var lates := set g | g in c.late && g.slot < conf.slots && PatchesFirst(c, g.slot, windows, facts) &&
                         !c.mixed[g.slot] && g.target.Some? :: g.branch;
    forall t: nat
      ensures t in heads + lates <==> exists k: nat :: k < conf.slots && PatchesOf(c, k, windows, facts, t)
    {
      if t in heads {
        var k :| 0 <= k < conf.slots && PatchesFirst(c, k, windows, facts) && t == c.first[k].value.branch;
        assert PatchesOf(c, k, windows, facts, t);
      } else if t in lates {
        var g :| g in c.late && g.slot < conf.slots && PatchesFirst(c, g.slot, windows, facts) &&
                 !c.mixed[g.slot] && g.target.Some? && g.branch == t;
        assert PatchesOf(c, g.slot, windows, facts, t);
      }
    }
  }

  /** The late guards of one slot among the first i. */
  function LateBranches(late: seq<LateGuard>, slot: nat, i: nat): set<nat>
    requires i <= |late|
  {
    if i == 0 then {}
    else
      var g := late[i - 1];
      LateBranches(late, slot, i - 1) + (if g.slot == slot && g.target.Some? then {g.branch} else {})
  }

  lemma {:induction false} LateBranchesAre(late: seq<LateGuard>, slot: nat, i: nat)
    requires i <= |late|
    ensures LateBranches(late, slot, i) ==
            set g | g in late[..i] && g.slot == slot && g.target.Some? :: g.branch
  {
    if i > 0 {
      LateBranchesAre(late, slot, i - 1);
      assert late[..i] == late[..i - 1] + [late[i - 1]];
    }
  }

  /** The compile-scoped cache object: its fields follow the functions above. */
  class AddressCache {
    const conf: Config
    var entries: seq<Option<Entry>>
    var first: seq<Option<Guard>>
    var mixed: seq<bool>
    var late: seq<LateGuard>
    var pending: Option<nat>
    var next: nat
    var written: set<Reg>
    var coverageUsed: bool
    var ops: seq<Op>

    constructor (extraSlots: bool, conditional: bool)
      ensures conf == Config(if extraSlots then 4 else 2, conditional) && conf.Valid()
      ensures State() == EMPTY && pending == None
    {
      conf := Config(if extraSlots then 4 else 2, conditional);
      entries, first := [None, None, None, None], [None, None, None, None];
      mixed, late, pending := [false, false, false, false], [], None;
      next, written, coverageUsed, ops := 0, {}, false, [];
    }

    function State(): Cache
      reads this
    {
      Cache(entries, first, mixed, late, next, written, coverageUsed, ops)
    }

    /** Emission of one access: a dominating slot, no caching, or a guard. */
    method Access(id: Identity, condition: nat) returns (op: Op)
      requires Shaped(State()) && conf.Valid() && pending.None?
      modifies this`entries, this`first, this`mixed, this`late, this`pending, this`next, this`coverageUsed, this`ops
      ensures pending.None? && |ops| == |old(ops)| + 1 && op == ops[|old(ops)|]
      ensures forall inst: Instruction, key: Key :: inst.condition == condition ==>
                State() == Emit(old(State()), conf, Item(inst, Some((key, id))))
    {
      hide FindSlot, PartialSlot, ConditionCoverage;
      var hit := Find(id);
      if hit.Some? {
        op := Use(hit.value, id);
        ops := ops + [op];
      } else if condition != 14 && !conf.conditional {
        op := Uncached(id);
        ops := ops + [op];
      } else {
        Begin(id);
        op := Guarded(pending.value, id);
        Remember(id, condition);
      }
    }

    /** The lowest dominating slot of this identity. */
    method Find(id: Identity) returns (hit: Option<nat>)
      requires Shaped(State()) && conf.Valid()
      ensures hit == if FindSlot(State(), conf, id, 0) < conf.slots then Some(FindSlot(State(), conf, id, 0)) else None
    {
      var slot: nat := 0;
      while slot < conf.slots
        invariant slot <= conf.slots && FindSlot(State(), conf, id, 0) == FindSlot(State(), conf, id, slot)
      {
        if entries[slot].Some? && entries[slot].value.dominates && entries[slot].value.identity == id {
          return Some(slot);
        }
        slot := slot + 1;
      }
      return None;
    }

    method Choose(id: Identity) returns (selected: nat)
      requires Shaped(State()) && conf.Valid()
      ensures selected == SlotFor(State(), conf, id)
    {
      if coverageUsed {
        var slot: nat := 0;
        while slot < conf.slots
          invariant slot <= conf.slots && PartialSlot(State(), conf, id, 0) == PartialSlot(State(), conf, id, slot)
        {
          if entries[slot].Some? && !entries[slot].value.dominates && entries[slot].value.identity == id {
            return slot;
          }
          slot := slot + 1;
        }
      }
      return next % conf.slots;
    }

    method Begin(id: Identity)
      requires Shaped(State()) && conf.Valid()
      modifies `first, `late, `pending
      ensures pending == Some(SlotFor(old(State()), conf, id))
      ensures State() == BeginGuard(old(State()), conf, SlotFor(old(State()), conf, id), id)
    {
      var selected := Choose(id);
      pending := Some(selected);
      if first[selected].None? {
        first := first[selected := Some(Guard(id, |ops|, None))];
      } else if entries[selected].Some? && !entries[selected].value.dominates &&
                entries[selected].value.identity == id && !mixed[selected] {
        late := late + [LateGuard(selected, |ops|, None)];
      }
    }

    method Remember(id: Identity, condition: nat)
      requires Shaped(State()) && pending.Some? && pending.value < 4 && first[pending.value].Some?
      modifies `entries, `first, `mixed, `late, `pending, `next, `coverageUsed, `ops
      ensures pending.None? && State() == Remembered(old(State()), old(pending).value, id, condition)
    {
      hide Claimed;
      var slot := pending.value;
      pending := None;
      Claim(slot, id, condition);
      SetTargets(slot, id);
      ops := ops + [Guarded(slot, id)];
    }

    method Claim(slot: nat, id: Identity, condition: nat)
      requires Shaped(State()) && slot < 4 && first[slot].Some?
      modifies `entries, `mixed, `next, `coverageUsed
      ensures State() == Claimed(old(State()), slot, id, condition)
    {
      hide ConditionCoverage;
      var kept := entries[slot].Some? && entries[slot].value.identity == id;
      if !kept {
        next := next + 1;
      }
      var coverage := (if kept then entries[slot].value.coverage else {}) + ConditionCoverage(condition);
      entries := entries[slot := Some(Entry(id, coverage, coverage == ALL_VALUES))];
      mixed := mixed[slot := mixed[slot] || first[slot].value.identity != id];
      coverageUsed := coverageUsed || condition != 14;
    }

    method SetTargets(slot: nat, id: Identity)
      requires Shaped(State()) && slot < 4 && first[slot].Some?
      modifies `first, `late
      ensures var c := Published(old(State()), slot, id); first == c.first && late == c.late
    {
      if first[slot].value.target.None? && first[slot].value.identity == id {
        first := first[slot := Some(first[slot].value.(target := Some(|ops| + 1)))];
      }
      if late != [] && late[|late| - 1].target.None? && late[|late| - 1].slot == slot {
        late := late[|late| - 1 := late[|late| - 1].(target := Some(|ops| + 1))];
      }
    }

    /** Revoke entries whose inputs are written, register by register; then end
        partial coverage if the instruction may change NZCV. */
    method Retire(inst: Instruction)
      requires Shaped(State())
      modifies `entries, `written
      ensures State() == Observe(old(State()), inst)
    {
      hide PreservesFlags, WrittenRegisters, After;
      var lost, crossed := WrittenRegisters(inst), coverageUsed && !PreservesFlags(inst);
      RevokeAll(lost);
      EndPartial(crossed);
      forall k: nat | k < 4
        ensures entries[k] == After(old(entries)[k], lost, crossed)
      {
        CrossedLost(old(entries)[k], lost);
      }
      assert entries == Observe(old(State()), inst).entries;
    }

    method RevokeAll(lost: set<Reg>)
      requires |entries| == 4
      modifies `entries, `written
      ensures |entries| == 4 && written == old(written) + lost
      ensures forall k: nat :: k < 4 ==> entries[k] == After(old(entries)[k], lost, false)
    {
      hide After;
      NothingLost(entries);
      var rest := lost;
      assert lost - rest == {};
      while rest != {}
        invariant rest <= lost && |entries| == 4 && written == old(written) + (lost - rest)
        invariant forall k: nat :: k < 4 ==> entries[k] == After(old(entries)[k], lost - rest, false)
        decreases |rest|
      {
        var r :| r in rest;
        ghost var gone := lost - rest;
        written := written + {r};
        Revoke(r);
        rest := rest - {r};
        assert lost - rest == gone + {r};
        forall k: nat | k < 4
          ensures entries[k] == After(old(entries)[k], lost - rest, false)
        {
          OneMoreLost(old(entries)[k], gone, r);
        }
      }
      assert lost - rest == lost;
    }

    /** Patch the recorded guards of a closed body; returns their branches and the
        slots that the entry code clears. */
    method Finalize(closed: bool, windows: seq<WindowView>, facts: Facts) returns (patched: set<nat>, cleared: set<nat>)
      requires Shaped(State()) && conf.Valid() && Wellformed(facts)
      ensures patched == if closed then PatchedGuards(State(), conf, windows, facts) else {}
      ensures cleared == set slot: nat | slot < conf.slots && closed && PatchesFirst(State(), slot, windows, facts)
    {
      hide PatchesFirst, PatchesOf;
      patched, cleared := {}, {};
      if !closed {
        return;
      }
      var slot: nat := 0;
      while slot < conf.slots
        invariant slot <= conf.slots
        invariant cleared == set k: nat | k < slot && PatchesFirst(State(), k, windows, facts)
        invariant forall t :: t in patched <==> exists k: nat :: k < slot && PatchesOf(State(), k, windows, facts, t)
      {
        ghost var before := patched;
        if PatchesFirst(State(), slot, windows, facts) {
          cleared := cleared + {slot};
          var guards := SlotGuards(slot, windows, facts);
          patched := patched + guards;
        }
        assert forall t :: t in patched <==> t in before || PatchesOf(State(), slot, windows, facts, t) by {
          hide PatchesOf;
          NotPatched(State(), slot, windows, facts);
        }
        slot := slot + 1;
      }
      PatchesAre(State(), conf, windows, facts);
    }

    /** The first guard of a patched slot, and its late guards when unshared. */
    method SlotGuards(slot: nat, windows: seq<WindowView>, facts: Facts) returns (patched: set<nat>)
      requires Shaped(State()) && Wellformed(facts) && slot < 4 && PatchesFirst(State(), slot, windows, facts)
      ensures forall t: nat :: t in patched <==> PatchesOf(State(), slot, windows, facts, t)
    {
      hide PatchesFirst;
      FirstExists(State(), slot, windows, facts);
      patched := {first[slot].value.branch};
      if !mixed[slot] {
        var i: nat := 0;
        while i < |late|
          invariant i <= |late| && patched == {first[slot].value.branch} + LateBranches(late, slot, i)
        {
          if late[i].slot == slot && late[i].target.Some? {
            patched := patched + {late[i].branch};
          }
          i := i + 1;
        }
        LateBranchesAre(late, slot, |late|);
        assert late[..|late|] == late;
      }
    }

    method Revoke(r: Reg)
      requires |entries| == 4
      modifies `entries
      ensures |entries| == 4
      ensures forall k: nat :: k < 4 ==>
                entries[k] == var e := old(entries)[k]; if e.Some? && r in Inputs(e.value.identity) then None else e
    {
      var slot: nat := 0;
      while slot < 4
        invariant slot <= 4 && |entries| == 4
        invariant forall k: nat :: k < 4 ==>
                    entries[k] == var e := old(entries)[k];
                                  if k < slot && e.Some? && r in Inputs(e.value.identity) then None else e
      {
        if entries[slot].Some? && r in Inputs(entries[slot].value.identity) {
          entries := entries[slot := None];
        }
        slot := slot + 1;
      }
    }

    method EndPartial(crossed: bool)
      requires |entries| == 4
      modifies `entries
      ensures |entries| == 4
      ensures forall k: nat :: k < 4 ==> entries[k] == After(old(entries)[k], {}, crossed)
    {
      if crossed {
        var slot: nat := 0;
        while slot < 4
          invariant slot <= 4 && |entries| == 4
          invariant forall k: nat :: k < 4 ==>
                      entries[k] == if k < slot then After(old(entries)[k], {}, true) else old(entries)[k]
        {
          if entries[slot].Some? && !entries[slot].value.dominates {
            entries := entries[slot := Some(entries[slot].value.(coverage := {}))];
          }
          slot := slot + 1;
        }
      }
    }
  }

  lemma NothingLost(entries: seq<Option<Entry>>)
    ensures forall k: nat :: k < |entries| ==> After(entries[k], {}, false) == entries[k]
  {
  }

  lemma CrossedLost(entry: Option<Entry>, lost: set<Reg>)
    ensures After(After(entry, lost, false), {}, true) == After(entry, lost, true)
    ensures After(After(entry, lost, false), {}, false) == After(entry, lost, false)
  {
  }

  lemma OneMoreLost(entry: Option<Entry>, lost: set<Reg>, r: Reg)
    ensures After(entry, lost + {r}, false) ==
            var before := After(entry, lost, false);
            if before.Some? && r in Inputs(before.value.identity) then None else before
  {
    if entry.Some? {
      var inputs := Inputs(entry.value.identity);
      assert inputs * (lost + {r}) == inputs * lost + inputs * {r};
      assert inputs * {r} == if r in inputs then {r} else {};
    }
  }
}
