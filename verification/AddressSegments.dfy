/** Finite address ranges formed inside a recorded path. */
module AddressSegments {
  import opened Words
  import opened Wrappers
  import opened Isa
  import opened AddressDisplacements
  import opened AddressKeys
  import opened SegmentGuards

  datatype Group = Group(offsets: Facts, uses: seq<Use>, stride: Option<Reg>)

  function Fresh(): Group {
    Group(INITIAL, [], None)
  }

  /** Groups formed so far and the ones that may still grow, in order. */
  datatype Segments = Segments(groups: seq<Group>, active: seq<nat>)

  predicate Usable(inst: Instruction, key: Key) {
    && inst.condition == 14 && key.base < 15 && key.index.None? && key.pcBase.None?
    && key.offset <= PAGE && key.size <= PAGE
  }

  predicate Matches(g: Group, key: Key)
  {
    g.uses != [] &&
    var first := g.uses[0].key;
    first.base == key.base && first.load == key.load && first.alignment == key.alignment &&
    first.naturalAlignment == key.naturalAlignment
  }

  predicate Wellshaped(s: Segments) {
    && (forall g <- s.groups :: g.uses != [] && Wellformed(g.offsets))
    && (forall i :: 0 <= i < |s.active| ==> s.active[i] < |s.groups|)
    && (forall i, j :: 0 <= i < j < |s.active| ==> s.active[i] != s.active[j])
    && (forall i :: 0 <= i < |s.active| ==> Growing(s.groups[s.active[i]]))
  }

  /** An active group can still express its base register. */
  predicate Growing(g: Group) {
    && g.uses != [] && Wellformed(g.offsets)
    && var value := g.offsets.values[g.uses[0].key.base];
    && value.Some?
    && (value.value.index.Some? ==> value.value.index.value !in g.offsets.written)
    && (g.stride.Some? ==> g.stride.value !in g.offsets.written)
    && (value.value.index.Some? && g.stride.Some? ==> value.value.index == g.stride)
  }

  /** Position in active of the first matching group, or |active|. */
  function Locate(s: Segments, key: Key, from: nat): (i: nat)
    requires from <= |s.active| && forall k :: 0 <= k < |s.active| ==> s.active[k] < |s.groups|
    ensures from <= i <= |s.active|
    ensures i < |s.active| ==> Matches(s.groups[s.active[i]], key)
    decreases |s.active| - from
  {
    if from == |s.active| || Matches(s.groups[s.active[from]], key) then from else Locate(s, key, from + 1)
  }

  /** The group that receives one more use, or None when its constant leaves
      the signed 32-bit range and the group stops growing. */
  function Extended(g: Group, step: nat, key: Key): (Group, bool)
    requires Wellformed(g.offsets) && g.offsets.values[key.base].Some?
  {
    var value := g.offsets.values[key.base].value;
    var strided := if value.index.Some? then g.(stride := value.index) else g;
    var constant := value.constant + Towards(key.add, key.offset);
    if -HALF <= constant < HALF
    then (strided.(uses := g.uses + [Use(step, key, constant, value.coefficient)]), true)
    else (strided, false)
  }

  function Record(s: Segments, step: nat, inst: Instruction, key: Option<Key>): Segments
    requires Wellshaped(s)
  {
    if key.None? || !Usable(inst, key.value) then s
    else
      var i := Locate(s, key.value, 0);
      if i == |s.active| then
        var (g, _) := Extended(Fresh(), step, key.value);
        Segments(s.groups + [g], s.active + [|s.groups|])
      else
        var id := s.active[i];
        var (g, kept) := Extended(s.groups[id], step, key.value);
        Segments(s.groups[id := g], if kept then s.active else s.active[..i] + s.active[i + 1..])
  }

  /** Each active group observes the instruction and is dropped when its base or
      stride can no longer be expressed. */
  function Survivors(groups: seq<Group>, active: seq<nat>, inst: Instruction): Segments
    requires forall g <- groups :: g.uses != [] && Wellformed(g.offsets)
    requires forall i :: 0 <= i < |active| ==> active[i] < |groups|
    decreases |active|
  {
    if active == [] then Segments(groups, [])
    else
      var id := active[0];
      var g := groups[id].(offsets := Observed(groups[id].offsets, inst));
      var rest := Survivors(groups[id := g], active[1..], inst);
      Segments(rest.groups, (if Growing(g) then [id] else []) + rest.active)
  }

  function Advance(s: Segments, step: nat, inst: Instruction, key: Option<Key>): Segments
    requires Wellshaped(s)
  {
    RecordShaped(s, step, inst, key);
    var recorded := Record(s, step, inst, key);
    Survivors(recorded.groups, recorded.active, inst)
  }

  lemma RecordShaped(s: Segments, step: nat, inst: Instruction, key: Option<Key>)
    requires Wellshaped(s)
    ensures Wellshaped(Record(s, step, inst, key))
  {
    hide Extended, Wellformed, Growing, Matches, Wellshaped;
    if key.Some? && Usable(inst, key.value) {
      LocateBounds(s);
      var i := Locate(s, key.value, 0);
      if i == |s.active| {
        FreshBase(key.value);
        ExtendedGrowing(Fresh(), step, key.value);
        OpenedShaped(s, Extended(Fresh(), step, key.value).0);
      } else {
        GrowingAt(s, i);
        GrowingBase(s.groups[s.active[i]], key.value);
        ExtendedGrowing(s.groups[s.active[i]], step, key.value);
        var (g, kept) := Extended(s.groups[s.active[i]], step, key.value);
        ReplacedShaped(s, i, g, kept);
      }
    }
  }

  lemma FreshBase(key: Key)
    ensures Wellformed(Fresh().offsets) && Fresh().offsets.values[key.base].Some?
  {
  }

  lemma LocateBounds(s: Segments)
    requires Wellshaped(s)
    ensures forall k :: 0 <= k < |s.active| ==> s.active[k] < |s.groups|
  {
  }

  lemma GrowingAt(s: Segments, i: nat)
    requires Wellshaped(s) && i < |s.active|
    ensures s.active[i] < |s.groups| && Growing(s.groups[s.active[i]]) && Wellformed(s.groups[s.active[i]].offsets)
  {
    hide Growing, Wellformed;
    assert s.groups[s.active[i]] in s.groups;
  }

  lemma OpenedShaped(s: Segments, g: Group)
    requires Wellshaped(s) && g.uses != [] && Wellformed(g.offsets) && Growing(g)
    ensures Wellshaped(Segments(s.groups + [g], s.active + [|s.groups|]))
  {
    hide Growing, Wellformed;
  }

  lemma ReplacedShaped(s: Segments, i: nat, g: Group, kept: bool)
    requires Wellshaped(s) && i < |s.active| && g.uses != [] && Wellformed(g.offsets) && (kept ==> Growing(g))
    ensures s.active[i] < |s.groups|
    ensures Wellshaped(Segments(s.groups[s.active[i] := g], if kept then s.active else s.active[..i] + s.active[i + 1..]))
  {
    hide Growing, Wellformed;
  }

  lemma ExtendedGrowing(g: Group, step: nat, key: Key)
    requires key.offset <= PAGE
    requires g == Fresh() || (Growing(g) && Matches(g, key))
    ensures var (h, kept) := Extended(g, step, key);
            Wellformed(h.offsets) && h.uses != [] && (kept ==> Growing(h)) && (g == Fresh() ==> kept)
  {
  }

  /** Only offsets of active groups change, and the list of active ones shrinks. */
  lemma {:induction false} SurvivorsKeep(groups: seq<Group>, active: seq<nat>, inst: Instruction)
    requires forall g <- groups :: g.uses != [] && Wellformed(g.offsets)
    requires forall i :: 0 <= i < |active| ==> active[i] < |groups|
    requires forall i, j :: 0 <= i < j < |active| ==> active[i] != active[j]
    ensures var s := Survivors(groups, active, inst);
            && |s.groups| == |groups| && (forall id <- s.active :: id in active)
            && (forall i, j :: 0 <= i < j < |s.active| ==> s.active[i] != s.active[j])
            && (forall id: nat :: id < |groups| ==> s.groups[id] == Observing(groups, active, inst, id))
            && (forall id: nat :: id < |groups| && id in active ==> (id in s.active <==> Growing(s.groups[id])))
    decreases |active|
  {
    hide Observed, Growing, Wellformed;
    if active != [] {
      var id, rest := active[0], active[1..];
      var g := groups[id].(offsets := Observed(groups[id].offsets, inst));
      var changed := groups[id := g];
      SurvivorsKeep(changed, rest, inst);
      assert id !in rest;
      assert forall k: nat :: k < |groups| ==> Observing(changed, rest, inst, k) == Observing(groups, active, inst, k);
    }
  }

  /** What a group becomes: an active one observes the instruction. */
  function Observing(groups: seq<Group>, active: seq<nat>, inst: Instruction, id: nat): Group
    requires id < |groups| && Wellformed(groups[id].offsets)
  {
    if id in active then groups[id].(offsets := Observed(groups[id].offsets, inst)) else groups[id]
  }

  lemma SurvivorsShaped(groups: seq<Group>, active: seq<nat>, inst: Instruction)
    requires forall g <- groups :: g.uses != [] && Wellformed(g.offsets)
    requires forall i :: 0 <= i < |active| ==> active[i] < |groups|
    requires forall i, j :: 0 <= i < j < |active| ==> active[i] != active[j]
    ensures var s := Survivors(groups, active, inst);
            && Wellshaped(s) && |s.groups| == |groups|
            && (forall id <- s.active :: id in active)
            && (forall id: nat :: id < |groups| && id !in active ==> s.groups[id] == groups[id])
            && (forall id: nat :: id < |groups| ==>
                  s.groups[id].uses == groups[id].uses && s.groups[id].stride == groups[id].stride)
            && (forall id: nat :: id < |groups| && id in active ==>
                  s.groups[id].offsets == Observed(groups[id].offsets, inst) &&
                  (id in s.active <==> Growing(s.groups[id])))
  {
    hide Observed, Growing, Wellformed, Survivors;
    SurvivorsKeep(groups, active, inst);
    var s := Survivors(groups, active, inst);
    forall id: nat | id < |groups|
      ensures s.groups[id].uses == groups[id].uses && s.groups[id].stride == groups[id].stride
      ensures s.groups[id].uses != [] && Wellformed(s.groups[id].offsets)
    {
      assert groups[id] in groups;
      assert s.groups[id] == Observing(groups, active, inst, id);
    }
    forall i | 0 <= i < |s.active|
      ensures s.active[i] < |s.groups| && Growing(s.groups[s.active[i]])
    {
      assert s.active[i] in s.active;
    }
  }

  /** Every use recorded before step now is located relative to its group's entry. */
  ghost predicate Recorded(g: Group, at: seq<seq<Word>>, now: nat) {
    && g.uses != []
    && (forall i :: 0 <= i < |g.uses| ==> g.uses[i].step < now)
    && g.uses[0].step < |at| && |at[g.uses[0].step]| == 16
    && Located(g.uses, g.stride, at[g.uses[0].step], at)
  }

  /** An active group's facts hold now, and registers it has not seen written
      kept their entry value at every recorded use. */
  ghost predicate Live(g: Group, at: seq<seq<Word>>, now: nat) {
    && g.uses != [] && Growing(g) && now < |at|
    && g.uses[0].step < |at| && |at[g.uses[0].step]| == 16
    && Sound(g.offsets, at[g.uses[0].step], at[now])
    && (forall i, r: Reg :: 0 <= i < |g.uses| && r !in g.offsets.written && g.uses[i].step < |at| &&
                            |at[g.uses[i].step]| == 16 ==>
          at[g.uses[i].step][r] == at[g.uses[0].step][r])
  }

  ghost predicate History(s: Segments, at: seq<seq<Word>>, now: nat) {
    && Wellshaped(s)
    && (forall id: nat :: id < |s.groups| ==> Recorded(s.groups[id], at, now))
    && (forall id <- s.active :: Live(s.groups[id], at, now))
  }

  /** The uses recorded so far stay located when the stride becomes known. */
  lemma ExtendedKeepsUses(g: Group, at: seq<seq<Word>>, now: nat, key: Key, i: nat)
    requires Recorded(g, at, now) && Live(g, at, now) && Matches(g, key) && i < |g.uses|
    ensures var h := Extended(g, now, key).0;
            i < |h.uses| && h.uses[i] == g.uses[i] && h.uses[0] == g.uses[0] &&
            UseLocated(h.uses, h.stride, at[g.uses[0].step], at, i)
  {
    hide EffectiveAddress, Sound;
    assert UseLocated(g.uses, g.stride, at[g.uses[0].step], at, i);
  }

  /** The new use's form is the address it really has. */
  lemma ExtendedAddsUse(g: Group, at: seq<seq<Word>>, now: nat, key: Key)
    requires Live(g, at, now) && |at[now]| == 16
    requires Matches(g, key) && key.index.None? && key.pcBase.None?
    requires Extended(g, now, key).1
    ensures var h := Extended(g, now, key).0;
            |h.uses| == |g.uses| + 1 && h.uses[0] == g.uses[0] &&
            UseLocated(h.uses, h.stride, at[g.uses[0].step], at, |g.uses|)
  {
    hide Wrap, Offset;
    var entry := at[g.uses[0].step];
    var value := LiveBase(g, at, now, key.base);
    NewForm(value, entry, key.base, at[now][key.base], Towards(key.add, key.offset), Extended(g, now, key).0.stride);
    OwnOffset(key, at[now]);
  }

  /** The expression of a live group's base, which holds now. */
  lemma LiveBase(g: Group, at: seq<seq<Word>>, now: nat, base: Reg) returns (value: Expression)
    requires Live(g, at, now) && |at[now]| == 16 && g.uses[0].key.base == base
    ensures g.offsets.values[base] == Some(value) && value.Normal()
    ensures at[now][base] == Wrap(at[g.uses[0].step][base] + value.Denotes(at[g.uses[0].step]))
  {
    value := g.offsets.values[base].value;
  }

  lemma OwnOffset(key: Key, regs: seq<Word>)
    requires |regs| == 16 && key.index.None?
    ensures Offset(key, regs) == key.offset
  {
  }

  /** An address off a base whose expression is known, over the entry registers. */
  lemma NewForm(value: Expression, entry: seq<Word>, base: Reg, current: Word, offset: int, stride: Option<Reg>)
    requires |entry| == 16 && value.Normal() && current == Wrap(entry[base] + value.Denotes(entry))
    requires value.index.Some? ==> value.index == stride
    ensures Wrap(current + offset) ==
            Wrap(entry[base] + (value.constant + offset) + value.coefficient * StrideValue(stride, entry))
  {
    var x := if value.index.Some? then entry[value.index.value] else 0;
    FormAt(entry[base], value.constant, value.coefficient, x, offset);
    if value.index.Some? {
      SignedMultiplier(entry[base] + value.constant + offset, value.coefficient, entry[value.index.value]);
    }
  }

  /** Adding a use to a live group keeps every recorded form true. */
  lemma ExtendedRecorded(g: Group, at: seq<seq<Word>>, now: nat, key: Key)
    requires Recorded(g, at, now) && Live(g, at, now) && |at[now]| == 16
    requires Matches(g, key) && key.index.None? && key.pcBase.None?
    ensures Recorded(Extended(g, now, key).0, at, now + 1)
    ensures Extended(g, now, key).1 ==> Live(Extended(g, now, key).0, at, now)
    ensures Extended(g, now, key).0.uses[..|g.uses|] == g.uses
  {
    hide UseLocated;
    var h, entry := Extended(g, now, key).0, at[g.uses[0].step];
    if Extended(g, now, key).1 {
      ExtendedAddsUse(g, at, now, key);
    }
    forall i | 0 <= i < |h.uses|
      ensures UseLocated(h.uses, h.stride, entry, at, i)
    {
      if i < |g.uses| {
        ExtendedKeepsUses(g, at, now, key, i);
      }
    }
  }

  lemma FormAt(base: int, c: int, k: int, x: int, offset: int)
    ensures Wrap(Wrap(base + (c + k * x)) + offset) == Wrap(base + c + offset + k * x)
  {
    SumMoves(base, c + k * x, offset);
  }

  /** The first use of a fresh group is its own reference. */
  lemma FreshRecorded(at: seq<seq<Word>>, now: nat, key: Key)
    requires now < |at| && |at[now]| == 16
    requires key.index.None? && key.pcBase.None? && key.offset <= PAGE
    ensures var (g, kept) := Extended(Fresh(), now, key);
            kept && Recorded(g, at, now + 1) && Live(g, at, now) && |g.uses| == 1
  {
    var g := Extended(Fresh(), now, key).0;
    InitialSound(at[now]);
    assert UseLocated(g.uses, g.stride, at[now], at, 0);
  }

  lemma RecordKeeps(s: Segments, now: nat, inst: Instruction, key: Option<Key>, at: seq<seq<Word>>)
    requires History(s, at, now) && now < |at| && |at[now]| == 16
    ensures Wellshaped(Record(s, now, inst, key))
    ensures forall id: nat :: id < |Record(s, now, inst, key).groups| ==>
              Recorded(Record(s, now, inst, key).groups[id], at, now + 1)
    ensures forall id <- Record(s, now, inst, key).active :: Live(Record(s, now, inst, key).groups[id], at, now)
  {
    hide Located, Live, Matches, Extended, Wellformed, Growing;
    RecordShaped(s, now, inst, key);
    if key.Some? && Usable(inst, key.value) {
      var i := Locate(s, key.value, 0);
      if i == |s.active| {
        FreshRecorded(at, now, key.value);
      } else {
        assert s.active[i] in s.active;
        ExtendedRecorded(s.groups[s.active[i]], at, now, key.value);
      }
    }
  }

  /** A retired instruction keeps a live group's facts true. */
  lemma LiveAdvances(g: Group, at: seq<seq<Word>>, now: nat, inst: Instruction)
    requires Live(g, at, now) && now + 1 < |at| && Retires(inst, at[now], at[now + 1])
    requires Growing(g.(offsets := Observed(g.offsets, inst)))
    ensures Live(g.(offsets := Observed(g.offsets, inst)), at, now + 1)
  {
    hide Growing;
    ObservedSound(g.offsets, inst, at[g.uses[0].step], at[now], at[now + 1]);
    assert g.offsets.written <= Observed(g.offsets, inst).written;
  }

  /** One observed and retired instruction keeps the history. */
  lemma AdvanceKeeps(s: Segments, now: nat, inst: Instruction, key: Option<Key>, at: seq<seq<Word>>)
    requires History(s, at, now) && now + 1 < |at| && Retires(inst, at[now], at[now + 1])
    ensures History(Advance(s, now, inst, key), at, now + 1)
  {
    hide Located, Sound, Growing, Observed, Record;
    RecordKeeps(s, now, inst, key, at);
    var recorded, out := Record(s, now, inst, key), Advance(s, now, inst, key);
    SurvivorsShaped(recorded.groups, recorded.active, inst);
    forall id | id in out.active
      ensures Live(out.groups[id], at, now + 1)
    {
      assert out.groups[id] == recorded.groups[id].(offsets := Observed(recorded.groups[id].offsets, inst));
      LiveAdvances(recorded.groups[id], at, now, inst);
    }
  }

  datatype PathStep = PathStep(inst: Instruction, key: Option<Key>)

  /** The analysis of a path, instruction now being its first. */
  function ObserveAll(s: Segments, now: nat, p: seq<PathStep>): Segments
    requires Wellshaped(s)
    decreases |p|
  {
    if p == [] then s
    else
      AdvanceShaped(s, now, p[0].inst, p[0].key);
      ObserveAll(Advance(s, now, p[0].inst, p[0].key), now + 1, p[1..])
  }

  lemma AdvanceShaped(s: Segments, now: nat, inst: Instruction, key: Option<Key>)
    requires Wellshaped(s)
    ensures Wellshaped(Advance(s, now, inst, key))
  {
    RecordShaped(s, now, inst, key);
    SurvivorsShaped(Record(s, now, inst, key).groups, Record(s, now, inst, key).active, inst);
  }

  /** Registers along an executed path, from instruction now on. */
  ghost predicate Executes(p: seq<PathStep>, at: seq<seq<Word>>, now: nat) {
    |at| == now + |p| + 1 &&
    forall k: nat :: k < |p| ==> StepRetires(p, at, now, k)
  }

  ghost predicate StepRetires(p: seq<PathStep>, at: seq<seq<Word>>, now: nat, k: nat)
    requires k < |p| && |at| == now + |p| + 1
  {
    Retires(p[k].inst, at[now + k], at[now + k + 1])
  }

  lemma {:induction false} ObserveAllKeeps(s: Segments, now: nat, p: seq<PathStep>, at: seq<seq<Word>>)
    requires History(s, at, now) && Executes(p, at, now)
    ensures Wellshaped(ObserveAll(s, now, p)) && History(ObserveAll(s, now, p), at, now + |p|)
    decreases |p|
  {
    hide Advance, Recorded, Live;
    if p != [] {
      assert StepRetires(p, at, now, 0);
      AdvanceKeeps(s, now, p[0].inst, p[0].key, at);
      var rest, next := p[1..], now + 1;
      forall k: nat | k < |rest|
        ensures StepRetires(rest, at, next, k)
      {
        assert StepRetires(p, at, now, k + 1);
      }
      AdvanceShaped(s, now, p[0].inst, p[0].key);
      ObserveAllKeeps(Advance(s, now, p[0].inst, p[0].key), now + 1, p[1..], at);
    }
  }

  predicate UseAt(groups: seq<Group>, id: nat, i: nat) {
    id < |groups| && i < |groups[id].uses|
  }

  function StepOf(groups: seq<Group>, id: nat, i: nat): nat
    requires UseAt(groups, id, i)
  {
    groups[id].uses[i].step
  }

  /** No use of group id is at step s. */
  ghost predicate Elsewhere(groups: seq<Group>, id: nat, s: nat) {
    forall i: nat :: UseAt(groups, id, i) ==> StepOf(groups, id, i) != s
  }

  /** Each step belongs to at most one use, a group's uses are in step order, and
      all come before step now. */
  ghost predicate Stepped(groups: seq<Group>, now: nat) {
    && (forall id: nat, i: nat :: UseAt(groups, id, i) ==> StepOf(groups, id, i) < now)
    && (forall id: nat, i: nat, other: nat, j: nat ::
          UseAt(groups, id, i) && UseAt(groups, other, j) && StepOf(groups, id, i) == StepOf(groups, other, j) ==>
            id == other && i == j)
    && (forall id: nat, i: nat, j: nat :: i < j && UseAt(groups, id, i) && UseAt(groups, id, j) ==>
          StepOf(groups, id, i) < StepOf(groups, id, j))
  }

  /** Recording adds at most one use, at the current step. */
  lemma RecordAdds(s: Segments, now: nat, inst: Instruction, key: Option<Key>, target: nat)
    requires Wellshaped(s)
    requires key.Some? && Usable(inst, key.value) ==>
               target == if Locate(s, key.value, 0) == |s.active| then |s.groups|
                         else s.active[Locate(s, key.value, 0)]
    ensures var groups := Record(s, now, inst, key).groups;
            && |s.groups| <= |groups|
            && (forall id: nat :: id < |groups| && id != target ==> id < |s.groups| && groups[id] == s.groups[id])
            && (target < |groups| ==>
                  var old' := if target < |s.groups| then s.groups[target].uses else [];
                  groups[target].uses == old' ||
                  (|groups[target].uses| == |old'| + 1 && groups[target].uses[..|old'|] == old' &&
                   groups[target].uses[|old'|].step == now))
  {
    hide Growing, Wellformed;
  }

  /** Every use after one more step was there before, or is the last of the group
      that received it. */
  lemma AdvancedUse(s: Segments, now: nat, inst: Instruction, key: Option<Key>, target: nat, id: nat, i: nat)
    requires Wellshaped(s) && UseAt(Advance(s, now, inst, key).groups, id, i)
    requires target == if key.Some? && Usable(inst, key.value) && Locate(s, key.value, 0) < |s.active|
                       then s.active[Locate(s, key.value, 0)] else |s.groups|
    ensures var groups := Advance(s, now, inst, key).groups;
            (UseAt(s.groups, id, i) && StepOf(groups, id, i) == StepOf(s.groups, id, i)) ||
            (StepOf(groups, id, i) == now && id == target && i == |groups[id].uses| - 1)
  {
    hide Growing, Observed, Wellformed, Record, Locate, Usable, Survivors;
    RecordShaped(s, now, inst, key);
    AdvanceUses(s, now, inst, key, id);
    RecordAdds(s, now, inst, key, target);
  }

  /** Observing an instruction changes no use. */
  lemma AdvanceUses(s: Segments, now: nat, inst: Instruction, key: Option<Key>, id: nat)
    requires Wellshaped(s)
    ensures |Advance(s, now, inst, key).groups| == |Record(s, now, inst, key).groups|
    ensures id < |Record(s, now, inst, key).groups| ==>
              Advance(s, now, inst, key).groups[id].uses == Record(s, now, inst, key).groups[id].uses
  {
    hide Growing, Observed, Wellformed, Record;
    RecordShaped(s, now, inst, key);
    SurvivorsShaped(Record(s, now, inst, key).groups, Record(s, now, inst, key).active, inst);
  }

  lemma AdvanceStepped(s: Segments, now: nat, inst: Instruction, key: Option<Key>)
    requires Wellshaped(s) && Stepped(s.groups, now)
    ensures Stepped(Advance(s, now, inst, key).groups, now + 1)
  {
    hide Advance, Growing, Usable;
    var groups := Advance(s, now, inst, key).groups;
    var target := if key.Some? && Usable(inst, key.value) && Locate(s, key.value, 0) < |s.active|
                  then s.active[Locate(s, key.value, 0)] else |s.groups|;
    forall id: nat, i: nat | UseAt(groups, id, i)
      ensures (UseAt(s.groups, id, i) && StepOf(groups, id, i) == StepOf(s.groups, id, i)) ||
              (StepOf(groups, id, i) == now && id == target && i == |groups[id].uses| - 1)
    {
      AdvancedUse(s, now, inst, key, target, id, i);
    }
  }

  /** Observing a path leaves every group's uses in the order finish relies on. */
  lemma {:induction false} ObserveAllStepped(s: Segments, now: nat, p: seq<PathStep>)
    requires Wellshaped(s) && Stepped(s.groups, now)
    ensures Wellshaped(ObserveAll(s, now, p)) && Stepped(ObserveAll(s, now, p).groups, now + |p|)
    decreases |p|
  {
    hide Advance, Stepped, Wellshaped;
    if p != [] {
      AdvanceShaped(s, now, p[0].inst, p[0].key);
      AdvanceStepped(s, now, p[0].inst, p[0].key);
      ObserveAllStepped(Advance(s, now, p[0].inst, p[0].key), now + 1, p[1..]);
    }
  }

  /** The lowest use from i on that keeps a hull, or |uses|. */
  function FirstCovered(uses: seq<Use>, i: nat): nat
    requires i <= |uses|
    decreases |uses| - i
  {
    if i == |uses| || Covered(uses, i) then i else FirstCovered(uses, i + 1)
  }

  /** Static segments share the first eligible access as their host anchor. */
  function Origin(g: Group): int
    requires g.uses != []
  {
    var first := FirstCovered(g.uses, 0);
    if g.stride.Some? || first >= |g.uses| then 0 else g.uses[first].constant
  }

  /** The access recorded for a use: range checks must amortize over three. */
  function Expected(g: Group, id: nat, i: nat): Option<Access>
    requires i < |g.uses|
  {
    if |g.uses| < 3 || !Covered(g.uses, i) then None
    else Some(AccessOf(g.uses, g.stride, id, i, Origin(g)))
  }

  /** The accesses of a group before its static origin is known. */
  function Unanchored(g: Group, id: nat, i: nat): Option<Access>
    requires i < |g.uses|
  {
    if Covered(g.uses, i) then Some(AccessOf(g.uses, g.stride, id, i, 0)) else None
  }

  lemma SurvivorsStep(groups: seq<Group>, active: seq<nat>, i: nat, inst: Instruction)
    requires forall g <- groups :: g.uses != [] && Wellformed(g.offsets)
    requires forall k :: 0 <= k < |active| ==> active[k] < |groups|
    requires i < |active|
    ensures var id := active[i];
            var g := groups[id].(offsets := Observed(groups[id].offsets, inst));
            var rest := Survivors(groups[id := g], active[i + 1..], inst);
            Survivors(groups, active[i..], inst) ==
            Segments(rest.groups, (if Growing(g) then [id] else []) + rest.active)
  {
    hide Growing, Observed, Wellformed;
    assert active[i..][1..] == active[i + 1..];
  }

  lemma SurvivorsDone(groups: seq<Group>, active: seq<nat>, i: nat, inst: Instruction)
    requires forall g <- groups :: g.uses != [] && Wellformed(g.offsets)
    requires forall k :: 0 <= k < |active| ==> active[k] < |groups|
    requires i == |active|
    ensures Survivors(groups, active[i..], inst) == Segments(groups, []) && active[..i] == active
  {
  }

  lemma UnusableRecord(s: Segments, step: nat, inst: Instruction, key: Option<Key>)
    requires Wellshaped(s) && (key.None? || !Usable(inst, key.value))
    ensures Record(s, step, inst, key) == s
  {
  }

  /** Uses of one group never share a step. */
  lemma StepsApart(groups: seq<Group>, n: nat, id: nat, i: nat)
    requires Stepped(groups, n) && UseAt(groups, id, i)
    ensures StepOf(groups, id, i) < n
    ensures forall k: nat :: UseAt(groups, id, k) && k != i ==> StepOf(groups, id, k) != StepOf(groups, id, i)
  {
  }

  lemma StepsBefore(groups: seq<Group>, n: nat, id: nat)
    requires Stepped(groups, n)
    ensures forall k: nat :: UseAt(groups, id, k) ==> StepOf(groups, id, k) < n
  {
  }

  lemma GrowingBase(g: Group, key: Key)
    requires Growing(g) && Matches(g, key)
    ensures Wellformed(g.offsets) && g.offsets.values[key.base].Some?
  {
  }

  lemma HullStep(uses: seq<Use>, i: nat)
    requires i < |uses|
    ensures SuffixHull(uses, i) ==
            if i == |uses| - 1
            then Hull(uses[i].constant, uses[i].constant + uses[i].key.size, uses[i].coefficient, uses[i].coefficient,
                      AlignedUse(uses, i))
            else Widen(SuffixHull(uses, i + 1), uses, i)
  {
  }


  class AddressSegments {
    var groups: seq<Group>
    var active: seq<nat>
    var accesses: seq<Option<Access>>

    constructor ()
      ensures State() == Segments([], []) && accesses == []
    {
      groups, active, accesses := [], [], [];
    }

    function State(): Segments
      reads this
    {
      Segments(groups, active)
    }

    method Observe(step: nat, inst: Instruction, key: Option<Key>)
      requires Wellshaped(State())
      modifies `groups, `active
      ensures State() == Advance(old(State()), step, inst, key) && Wellshaped(State())
    {
      hide Growing, Observed, Extended, Record, Survivors, Wellshaped;
      RecordShaped(State(), step, inst, key);
      AdvanceShaped(State(), step, inst, key);
      if key.Some? && Usable(inst, key.value) {
        RecordUse(step, inst, key.value);
      } else {
        UnusableRecord(State(), step, inst, key);
      }
      Retire(inst);
    }

    /** The use joins the first matching active group, or opens one. */
    method RecordUse(step: nat, inst: Instruction, key: Key)
      requires Wellshaped(State()) && Usable(inst, key)
      modifies `groups, `active
      ensures State() == Record(old(State()), step, inst, Some(key))
    {
      hide Growing, Extended, Matches;
      var found := 0;
      while found < |active| && !Matches(groups[active[found]], key)
        invariant 0 <= found <= |active|
        invariant Locate(State(), key, 0) == Locate(State(), key, found)
      {
        found := found + 1;
      }
      if found == |active| {
        active := active + [|groups|];
        groups := groups + [Extended(Fresh(), step, key).0];
      } else {
        GrowingBase(groups[active[found]], key);
        var (extended, kept) := Extended(groups[active[found]], step, key);
        groups := groups[active[found] := extended];
        if !kept {
          active := active[..found] + active[found + 1..];
        }
      }
    }

    /** Every active group observes the instruction; those that cannot follow it
        leave the active list in place. */
    method Retire(inst: Instruction)
      requires Wellshaped(State())
      modifies `groups, `active
      ensures State() == Survivors(old(groups), old(active), inst)
    {
      hide Growing, Observed, Wellformed, Survivors;
      ghost var goal := Survivors(groups, active, inst);
      var i := 0;
      while i < |active|
        invariant 0 <= i <= |active|
        invariant forall g <- groups :: g.uses != [] && Wellformed(g.offsets)
        invariant forall k :: 0 <= k < |active| ==> active[k] < |groups|
        invariant goal.groups == Survivors(groups, active[i..], inst).groups
        invariant goal.active == active[..i] + Survivors(groups, active[i..], inst).active
        decreases |active| - i
      {
        var id := active[i];
        ghost var tail, head := active[i + 1..], active[..i];
        SurvivorsStep(groups, active, i, inst);
        var observed := groups[id].(offsets := Observed(groups[id].offsets, inst));
        groups := groups[id := observed];
        if Growing(observed) {
          i := i + 1;
          assert active[..i] == head + [id];
        } else {
          active := active[..i] + active[i + 1..];
          assert active[i..] == tail && active[..i] == head;
        }
      }
      SurvivorsDone(groups, active, i, inst);
    }

    /** Turn every group's uses into per-access proofs and forget the groups. */
    method Finish(steps: nat)
      requires (forall g <- groups :: g.uses != []) && Stepped(groups, steps)
      modifies this
      ensures |accesses| == steps && State() == Segments([], [])
      ensures forall id: nat, i: nat :: UseAt(old(groups), id, i) ==>
                accesses[StepOf(old(groups), id, i)] == Expected(old(groups)[id], id, i)
      ensures forall s: nat :: s < steps && accesses[s].Some? ==>
                exists id: nat, i: nat :: UseAt(old(groups), id, i) && StepOf(old(groups), id, i) == s
    {
      hide Expected;
      accesses := seq(steps, _ => None);
      var id := 0;
      while id < |groups|
        invariant 0 <= id <= |groups| && |accesses| == steps && groups == old(groups)
        invariant forall g: nat, i: nat :: UseAt(groups, g, i) ==>
                    accesses[StepOf(groups, g, i)] == if g < id then Expected(groups[g], g, i) else None
        invariant forall s: nat :: s < steps && accesses[s].Some? ==>
                    exists g: nat, i: nat :: UseAt(groups, g, i) && StepOf(groups, g, i) == s
      {
        ghost var before := accesses;
        FinishGroup(id);
        forall g: nat, i: nat | UseAt(groups, g, i)
          ensures accesses[StepOf(groups, g, i)] == if g < id + 1 then Expected(groups[g], g, i) else None
        {
          if g != id {
            assert Elsewhere(groups, id, StepOf(groups, g, i));
          }
        }
        id := id + 1;
      }
      groups, active := [], [];
    }

    /** The backward pass over one group, then its static anchor. */
    method FinishGroup(id: nat)
      requires id < |groups| && groups[id].uses != [] && Stepped(groups, |accesses|)
      requires forall i: nat :: UseAt(groups, id, i) ==> accesses[StepOf(groups, id, i)] == None
      modifies `accesses
      ensures |accesses| == old(|accesses|)
      ensures forall i: nat :: UseAt(groups, id, i) ==> accesses[StepOf(groups, id, i)] == Expected(groups[id], id, i)
      ensures forall s: nat :: s < |accesses| && Elsewhere(groups, id, s) ==>
                accesses[s] == old(accesses)[s]
    {
      hide SuffixHull, Stepped, Elsewhere, Covered, FirstCovered;
      StepsBefore(groups, |accesses|, id);
      var uses, stride := groups[id].uses, groups[id].stride;
      if |uses| < 3 {
        return;
      }
      var origin := BackwardPass(id);
      if stride.None? && origin.Some? {
        var k := 0;
        while k < |uses|
          invariant 0 <= k <= |uses| && |accesses| == old(|accesses|)
          invariant forall i: nat :: UseAt(groups, id, i) ==>
                      accesses[StepOf(groups, id, i)] ==
                      if i < k then Expected(groups[id], id, i) else Unanchored(groups[id], id, i)
          invariant forall s: nat :: s < |accesses| && Elsewhere(groups, id, s) ==>
                      accesses[s] == old(accesses)[s]
        {
          assert UseAt(groups, id, k);
          StepsApart(groups, |accesses|, id, k);
          var step := uses[k].step;
          if accesses[step].Some? {
            var access := accesses[step].value;
            accesses := accesses[step := Some(access.(offset := access.offset - origin.value))];
          }
          k := k + 1;
        }
      }
    }

    /** Running minima and maxima from the last use to the first; returns the
        constant of the earliest use that kept a hull. */
    method BackwardPass(id: nat) returns (origin: Option<int>)
      requires id < |groups| && groups[id].uses != [] && Stepped(groups, |accesses|)
      requires forall i: nat :: UseAt(groups, id, i) ==> accesses[StepOf(groups, id, i)] == None
      modifies `accesses
      ensures |accesses| == old(|accesses|)
      ensures forall i: nat :: UseAt(groups, id, i) ==> accesses[StepOf(groups, id, i)] == Unanchored(groups[id], id, i)
      ensures forall s: nat :: s < |accesses| && Elsewhere(groups, id, s) ==>
                accesses[s] == old(accesses)[s]
      ensures var first := FirstCovered(groups[id].uses, 0);
              origin == if first < |groups[id].uses| then Some(groups[id].uses[first].constant) else None
    {
      hide AccessOf, Stepped, SuffixHull, Widen, AlignedUse;
      StepsBefore(groups, |accesses|, id);
      var uses, stride := groups[id].uses, groups[id].stride;
      var i: nat, hull := |uses|, Hull(0, 0, 0, 0, true);
      origin := None;
      while i > 0
        invariant i <= |uses| && |accesses| == old(|accesses|)
        invariant i < |uses| ==> hull == SuffixHull(uses, i)
        invariant forall k: nat :: UseAt(groups, id, k) ==>
                    accesses[StepOf(groups, id, k)] == if k >= i then Unanchored(groups[id], id, k) else None
        invariant forall s: nat :: s < |accesses| && Elsewhere(groups, id, s) ==>
                      accesses[s] == old(accesses)[s]
        invariant var first := FirstCovered(uses, i);
                  origin == if first < |uses| then Some(uses[first].constant) else None
      {
        i := i - 1;
        var use := uses[i];
        hull := if i == |uses| - 1
                then Hull(use.constant, use.constant + use.key.size, use.coefficient, use.coefficient, AlignedUse(uses, i))
                else Widen(hull, uses, i);
        HullStep(uses, i);
        assert UseAt(groups, id, i);
        StepsApart(groups, |accesses|, id, i);
        if hull.valid && hull.end - hull.first <= PAGE && hull.low - use.coefficient >= -HALF &&
           hull.high - use.coefficient < HALF {
          accesses := accesses[use.step := Some(AccessOf(uses, stride, id, i, 0))];
          origin := Some(use.constant);
        }
      }
    }

    /** The proof recorded for the access a key makes at a step. */
    function Find(step: nat, key: Key): (a: Option<Access>)
      reads this
      ensures a.Some? ==> step < |accesses| && accesses[step] == a && a.value.key == key
    {
      if step < |accesses| && accesses[step].Some? && accesses[step].value.key == key then accesses[step] else None
    }
  }

  /** Segment guards over a whole path: if the guard recorded for one access
      passes in the registers of that step, then that access and every later one
      of its group lies wholly in the same page, correctly aligned. */
  lemma PathGuardSound(p: seq<PathStep>, at: seq<seq<Word>>, id: nat, i: nat, j: nat)
    requires Executes(p, at, 0) && |at[0]| == 16
    requires UseAt(ObserveAll(Segments([], []), 0, p).groups, id, i) && i <= j
    requires UseAt(ObserveAll(Segments([], []), 0, p).groups, id, j)
    requires var g := ObserveAll(Segments([], []), 0, p).groups[id];
             Expected(g, id, i).Some? && g.uses[i].step < |at| && |at[g.uses[i].step]| == 16 &&
             GuardPasses(Expected(g, id, i).value, EffectiveAddress(g.uses[i].key, at[g.uses[i].step]),
                         StrideValue(g.stride, at[g.uses[i].step]))
    ensures var g := ObserveAll(Segments([], []), 0, p).groups[id];
            var u, w := g.uses[i], g.uses[j];
            w.step < |at| && |at[w.step]| == 16 &&
            InPage(EffectiveAddress(w.key, at[w.step]), w.key.size, EffectiveAddress(u.key, at[u.step])) &&
            EffectiveAddress(w.key, at[w.step]) % w.key.Aligned() == 0
  {
    hide GuardPasses, EffectiveAddress, SuffixHull, Advance;
    assert History(Segments([], []), at, 0);
    ObserveAllKeeps(Segments([], []), 0, p, at);
    var g := ObserveAll(Segments([], []), 0, p).groups[id];
    assert Recorded(g, at, |p|);
    var entry := at[g.uses[0].step];
    assert UseLocated(g.uses, g.stride, entry, at, i) && UseLocated(g.uses, g.stride, entry, at, j);
    SegmentGuardSound(g.uses, g.stride, id, i, Origin(g), j, entry, at);
  }

  /** Every access of a static segment names the same host anchor. */
  lemma StaticAnchor(g: Group, id: nat, i: nat, at: seq<seq<Word>>, now: nat)
    requires Recorded(g, at, now) && g.stride.None? && i < |g.uses| && Expected(g, id, i).Some?
    ensures var first := FirstCovered(g.uses, 0);
            && first < |g.uses| && g.uses[first].step < |at| && g.uses[i].step < |at|
            && |at[g.uses[i].step]| == 16 == |at[g.uses[first].step]|
            && Wrap(EffectiveAddress(g.uses[i].key, at[g.uses[i].step]) - Expected(g, id, i).value.offset) ==
               EffectiveAddress(g.uses[first].key, at[g.uses[first].step])
  {
    hide EffectiveAddress, SuffixHull;
    var entry, first := at[g.uses[0].step], FirstCovered(g.uses, 0);
    FirstCoveredBound(g.uses, 0, i);
    assert UseLocated(g.uses, g.stride, entry, at, i) && UseLocated(g.uses, g.stride, entry, at, first);
    var u, v := g.uses[i], g.uses[first];
    SumMoves(entry[u.key.base], u.constant, -(u.constant - v.constant));
  }

  /** Two proven accesses of one group agree in direction and form their address
      from the base alone; without a stride they also name the same anchor. */
  lemma ProvenPair(p: seq<PathStep>, at: seq<seq<Word>>, id: nat, i: nat, j: nat)
    requires Executes(p, at, 0) && |at[0]| == 16
    requires UseAt(ObserveAll(Segments([], []), 0, p).groups, id, i) && i <= j
    requires UseAt(ObserveAll(Segments([], []), 0, p).groups, id, j)
    requires var g := ObserveAll(Segments([], []), 0, p).groups[id]; Expected(g, id, i).Some? && Expected(g, id, j).Some?
    ensures var g := ObserveAll(Segments([], []), 0, p).groups[id];
            var u, w, a, b := g.uses[i], g.uses[j], Expected(g, id, i).value, Expected(g, id, j).value;
            && u.step < |at| && w.step < |at| && |at[u.step]| == |at[w.step]| == 16
            && w.key.load == u.key.load && w.key.index.None? && w.key.pcBase.None? && a.stride == b.stride == g.stride
            && -PAGE <= b.offset - a.offset <= PAGE
            && (g.stride.None? ==> Wrap(EffectiveAddress(u.key, at[u.step]) - a.offset) ==
                                   Wrap(EffectiveAddress(w.key, at[w.step]) - b.offset))
  {
    hide EffectiveAddress, SuffixHull, Advance, FirstCovered, Widen;
    assert History(Segments([], []), at, 0);
    ObserveAllKeeps(Segments([], []), 0, p, at);
    var g := ObserveAll(Segments([], []), 0, p).groups[id];
    assert Recorded(g, at, |p|);
    var entry := at[g.uses[0].step];
    assert UseLocated(g.uses, g.stride, entry, at, i) && UseLocated(g.uses, g.stride, entry, at, j);
    HullBounds(g.uses, i, i);
    HullBounds(g.uses, i, j);
    if g.stride.None? {
      StaticAnchor(g, id, i, at, |p|);
      StaticAnchor(g, id, j, at, |p|);
    }
  }

  lemma {:induction false} FirstCoveredBound(uses: seq<Use>, i: nat, k: nat)
    requires i <= k < |uses| && Covered(uses, k)
    ensures i <= FirstCovered(uses, i) <= k && Covered(uses, FirstCovered(uses, i))
    decreases |uses| - i
  {
    hide Covered;
    if !Covered(uses, i) {
      FirstCoveredBound(uses, i + 1, k);
    }
  }
}
