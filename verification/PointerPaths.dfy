/** The body of one recorded cycle with its cached pointers.

Which slot identity an access gets, what the emitted code publishes for it, and
how it forms its pointer, from the results of the window and segment analyses.
 */
module PointerPaths {
  import opened Words
  import opened Wrappers
  import opened Isa
  import opened AddressDisplacements
  import opened AddressKeys
  import opened CachePointers
  import AccessBounds
  import AddressCache
  import AddressSegments
  import AddressWindows
  import SegmentGuards
  import WindowGuards

  /** What the compiler knows of a body: copies of one observed cycle, the
      windows assigned to its accesses, the segment proof of each step, and the
      steps whose access does not use the slots. */
  datatype Plan = Plan(
    conf: AddressCache.Config, cycle: seq<AddressSegments.PathStep>, copies: nat,
    bounds: seq<WindowGuards.Window>, placed: seq<Option<nat>>,
    segments: seq<Option<SegmentGuards.Access>>, uncached: set<nat>, closed: bool)
  {
    function Length(): nat {
      copies * |cycle|
    }

    function StepAt(t: nat): AddressSegments.PathStep
      requires t < Length()
    {
      cycle[t % |cycle|]
    }

    function Path(): (p: seq<AddressSegments.PathStep>)
      ensures |p| == Length() && forall t: nat :: t < |p| ==> p[t] == StepAt(t)
    {
      seq(Length(), t requires 0 <= t < Length() => StepAt(t))
    }

    function Analysis(): (s: AccessBounds.Analysis)
      ensures AccessBounds.Shaped(s)
    {
      AccessBounds.AnalyseAll(AccessBounds.START, cycle)
    }

    function Groups(): seq<AddressSegments.Group> {
      AddressSegments.ObserveAll(AddressSegments.Segments([], []), 0, Path()).groups
    }

    predicate Shaped() {
      conf.Valid() && cycle != [] && |placed| == |Analysis().accesses|
    }

    /** The windows over every copy. */
    function Windows(): (w: seq<WindowGuards.Window>)
      ensures |w| == |bounds| && forall i: nat :: i < |w| ==> w[i] == WindowGuards.Expanded(bounds[i], copies)
    {
      seq(|bounds|, i requires 0 <= i < |bounds| => WindowGuards.Expanded(bounds[i], copies))
    }

    /** The windows are those the analysis of the cycle was finished with. */
    ghost predicate WindowsPlaced() {
      var s := Analysis();
      && |placed| == |s.accesses|
      && (forall i: nat :: i < |placed| ==> AddressWindows.Placed(bounds, placed, s.accesses, s.facts, i))
      && (forall w <- bounds :: WindowGuards.Armed(w))
    }

    /** The proof recorded at a step is the one of its own use and group. */
    ghost predicate ProofOf(id: nat, i: nat)
      requires AddressSegments.UseAt(Groups(), id, i)
    {
      var step := AddressSegments.StepOf(Groups(), id, i);
      step < |segments| && segments[step] == AddressSegments.Expected(Groups()[id], id, i)
    }

    /** No segments were analysed, or they are those of the whole body. */
    ghost predicate SegmentsFinished() {
      segments == [] ||
      (|segments| == Length() &&
       (forall id: nat, i: nat :: AddressSegments.UseAt(Groups(), id, i) ==> ProofOf(id, i)) &&
       (forall t: nat :: t < |segments| && segments[t].Some? ==>
          exists id: nat, i: nat :: AddressSegments.UseAt(Groups(), id, i) && AddressSegments.StepOf(Groups(), id, i) == t))
    }

    /** Both analyses belong to this body, whose keys are ones the emitters form. */
    ghost predicate Analysed() {
      && WindowsPlaced() && SegmentsFinished()
      && forall step <- cycle :: step.key.Some? ==> AccessBounds.Formable(step.key.value)
    }

    ghost predicate Valid() {
      Shaped() && Analysed()
    }

    /** The facts about registers before step t of the body. */
    function FactsAt(t: nat): (f: Facts)
      ensures Wellformed(f)
    {
      ObservedAll(INITIAL, Before(t))
    }

    function Before(t: nat): (p: seq<Instruction>)
      ensures |p| == Min(t, Length()) && forall i: nat :: i < |p| ==> p[i] == StepAt(i).inst
    {
      seq(Min(t, Length()), i requires 0 <= i < Min(t, Length()) => StepAt(i).inst)
    }

    /** The displacement of a base from its value at group entry. */
    function Displacement(t: nat, base: Reg): Option<Int32> {
      var e := FactsAt(t).values[base];
      if e.Some? && e.value.index.None? then Some(e.value.constant) else None
    }

    function WindowOf(key: Key): (w: Option<nat>)
      requires Shaped()
      ensures w.Some? ==> w.value < |bounds| && Windows()[w.value].enabled
    {
      AddressWindows.Found(Windows(), placed, Analysis().accesses, key)
    }

    /** The proof recorded at step t, for exactly this key. */
    function SegmentOf(t: nat, key: Key): Option<SegmentGuards.Access> {
      if t < |segments| && segments[t].Some? && segments[t].value.key == key then segments[t] else None
    }

    /** A window that can express its base here, a proven segment, or the key. */
    function IdentityOf(t: nat, key: Key): Identity
      requires Shaped()
    {
      var w := WindowOf(key);
      if w.Some? && (Windows()[w.value].stride.Some? || Displacement(t, key.base).Some?) then Identity.Window(w.value)
      else if SegmentOf(t, key).Some? then Segment(SegmentOf(t, key).value.id)
      else Direct(key)
    }

    /** The key of the access at step t, if it goes through the slots. */
    function KeyAt(t: nat): Option<Key> {
      if t < Length() && t !in uncached then StepAt(t).key else None
    }

    function Items(): (items: seq<AddressCache.Item>)
      requires Shaped()
      ensures |items| == Length() && forall t: nat :: t < |items| ==> items[t] == ItemAt(t)
    {
      seq(Length(), t requires 0 <= t < Length() => ItemAt(t))
    }

    function ItemAt(t: nat): AddressCache.Item
      requires t < Length() && Shaped()
    {
      AddressCache.Item(StepAt(t).inst,
                        if KeyAt(t).Some? then Some((KeyAt(t).value, IdentityOf(t, KeyAt(t).value))) else None)
    }

    function Views(): (v: seq<WindowView>)
      ensures |v| == |bounds|
      ensures forall i: nat :: i < |v| ==>
                v[i] == WindowView(Windows()[i].base, Windows()[i].load, Windows()[i].stride.Some?)
    {
      seq(|bounds|, i requires 0 <= i < |bounds| =>
        WindowView(Windows()[i].base, Windows()[i].load, Windows()[i].stride.Some?))
    }
  }

  /** The address formed anew from the base register, modulo 2^32. */
  function Reformed(key: Key, regs: seq<Word>): Word
    requires |regs| == 16
  {
    Wrap(regs[key.base] + Towards(key.add, key.offset))
  }

  /** What the emitted code stores after validating this pointer. */
  function Publication(plan: Plan, t: nat, key: Key, pointer: int, regs: seq<Word>): int
    requires plan.Shaped() && |regs| == 16
  {
    var ea := EffectiveAddress(key, regs);
    match plan.IdentityOf(t, key)
    case Direct(_) => pointer
    case Window(w) =>
      if plan.Windows()[w].stride.Some? then pointer - ea
      else PublishedStatic(pointer, ea, regs[key.base], plan.Displacement(t, key.base).value)
    case Segment(_) =>
      var a := plan.SegmentOf(t, key).value;
      if a.stride.Some? then pointer - ea else pointer - a.offset
  }

  /** The pointer the emitted access uses, from the value of its slot. */
  function Reference(plan: Plan, t: nat, key: Key, slot: int, regs: seq<Word>): int
    requires plan.Shaped() && |regs| == 16
  {
    match plan.IdentityOf(t, key)
    case Direct(_) => slot
    case Window(w) =>
      if plan.Windows()[w].stride.Some? then slot + Reformed(key, regs)
      else StaticReference(slot, key, plan.Displacement(t, key.base).value, Offset(key, regs))
    case Segment(_) =>
      var a := plan.SegmentOf(t, key).value;
      if a.stride.Some? then slot + Reformed(key, regs) else slot + a.offset
  }

  /** The first t instructions of the body retired from registers at[0]. */
  ghost predicate Runs(plan: Plan, at: seq<seq<Word>>, t: nat) {
    && t <= plan.Length() && t < |at| && |at[0]| == 16
    && forall u: nat :: u < t ==> Stepped(plan, at, u)
  }

  ghost predicate Stepped(plan: Plan, at: seq<seq<Word>>, u: nat)
    requires u < plan.Length() && u + 1 < |at|
  {
    Retires(plan.StepAt(u).inst, at[u], at[u + 1])
  }

  lemma RunShape(plan: Plan, at: seq<seq<Word>>, t: nat, u: nat)
    requires Runs(plan, at, t) && u <= t
    ensures |at[u]| == 16
  {
    hide Retires;
    if u > 0 {
      assert Stepped(plan, at, u - 1);
      RetiresShape(plan.StepAt(u - 1).inst, at[u - 1], at[u]);
    }
  }

  lemma RetiresShape(inst: Instruction, before: seq<Word>, after: seq<Word>)
    requires Retires(inst, before, after)
    ensures |before| == |after| == 16
  {
  }

  /** A known displacement gives its register from the value at group entry. */
  lemma DisplacementSound(plan: Plan, at: seq<seq<Word>>, t: nat, base: Reg)
    requires Runs(plan, at, t)
    ensures |at[t]| == 16
    ensures plan.Displacement(t, base).Some? ==> at[t][base] == Wrap(at[0][base] + plan.Displacement(t, base).value)
  {
    hide Retires, ObservedAll, Execution, Sound, Plan.Before;
    BeforeRuns(plan, at, t);
    InitialSound(at[0]);
    RunSound(INITIAL, plan.Before(t), at[..t + 1], at[0]);
    KnownAt(plan.FactsAt(t), at[0], at[t], base);
  }

  lemma BeforeRuns(plan: Plan, at: seq<seq<Word>>, t: nat)
    requires Runs(plan, at, t)
    ensures |plan.Before(t)| == t && |at[0]| == |at[t]| == 16 && Execution(plan.Before(t), at[..t + 1])
  {
    hide Retires;
    var p, states := plan.Before(t), at[..t + 1];
    forall i: nat | i < |states|
      ensures |states[i]| == 16
    {
      RunShape(plan, at, t, i);
    }
    forall i: nat | i < |p|
      ensures Retired(p, states, i)
    {
      assert Stepped(plan, at, i);
    }
  }

  lemma KnownAt(f: Facts, entry: seq<Word>, current: seq<Word>, r: Reg)
    requires Sound(f, entry, current)
    ensures f.values[r].Some? && f.values[r].value.index.None? ==>
              current[r] == Wrap(entry[r] + f.values[r].value.constant)
  {
    if f.values[r].Some? && f.values[r].value.index.None? {
      assert f.values[r].value.Normal();
    }
  }

  /** Step j of copy m is step j of the cycle. */
  lemma StepInCopy(plan: Plan, m: nat, j: nat)
    requires j < |plan.cycle| && m * |plan.cycle| + j < plan.Length()
    ensures plan.StepAt(m * |plan.cycle| + j) == plan.cycle[j]
  {
    DivModUnique(m * |plan.cycle| + j, |plan.cycle|, m, j);
  }

  /** The part of a run inside copy m is a run of the cycle's first steps. */
  lemma CopyExecutes(plan: Plan, at: seq<seq<Word>>, t: nat, m: nat, len: nat)
    requires plan.cycle != [] && Runs(plan, at, t) && len <= |plan.cycle| && m * |plan.cycle| + len <= t
    ensures AddressSegments.Executes(plan.cycle[..len], at[m * |plan.cycle|..m * |plan.cycle| + len + 1], 0)
  {
    hide Retires;
    var start := m * |plan.cycle|;
    var p, states := plan.cycle[..len], at[start..start + len + 1];
    forall k: nat | k < |p|
      ensures AddressSegments.StepRetires(p, states, 0, k)
    {
      StepInCopy(plan, m, k);
      assert Stepped(plan, at, start + k);
    }
  }

  /** The registers at the start of copies 0 to q. */
  function Entries(at: seq<seq<Word>>, n: nat, q: nat): (e: seq<seq<Word>>)
    requires q * n < |at|
    ensures |e| == q + 1 && forall m: nat :: m <= q ==> m * n < |at| && e[m] == at[m * n]
  {
    ScaleAll(n, q);
    seq(q + 1, m requires 0 <= m <= q => assert m * n <= q * n; at[m * n])
  }

  lemma ScaleAll(n: nat, q: nat)
    ensures forall m: nat :: m <= q ==> 0 <= m * n <= q * n
  {
    forall m: nat | m <= q
      ensures 0 <= m * n <= q * n
    {
      Scale(q, m, n);
    }
  }

  lemma CopiesOf(plan: Plan, at: seq<seq<Word>>, t: nat, q: nat)
    requires plan.cycle != [] && Runs(plan, at, t) && q * |plan.cycle| <= t
    ensures WindowGuards.Copies(plan.cycle, Entries(at, |plan.cycle|, q))
  {
    hide Stepped, AddressSegments.Executes;
    var n := |plan.cycle|;
    var entries := Entries(at, n, q);
    assert |entries[0]| == 16 by {
      RunShape(plan, at, t, 0);
    }
    forall k: nat | k + 1 < |entries|
      ensures WindowGuards.CopyRuns(plan.cycle, entries, k)
    {
      Distribute(k, 1, n);
      Scale(q, k + 1, n);
      CopyExecutes(plan, at, t, k, n);
      assert plan.cycle[..n] == plan.cycle;
      var states := at[k * n..k * n + n + 1];
      assert AddressSegments.Executes(plan.cycle, states, 0) && states[0] == entries[k] && states[n] == entries[k + 1];
      RunShape(plan, at, t, k * n);
      RunShape(plan, at, t, k * n + n);
    }
  }

  /** The unexpanded window of a key, with the access it was placed for. */
  lemma PlacedWindow(plan: Plan, key: Key)
    requires plan.Valid() && plan.WindowOf(key).Some?
    ensures var s, w := plan.Analysis(), plan.WindowOf(key).value;
            var n := AccessBounds.Position(s.accesses, key);
            && n < |s.accesses| && w < |plan.bounds| && WindowGuards.Holds(plan.bounds[w], s.accesses[n], s.facts)
            && s.accesses[n].key == key && key.base < 15 && key.pcBase.None?
            && WindowGuards.Armed(plan.Windows()[w]) && plan.Windows()[w].enabled
  {
    hide AccessBounds.AnalyseAll, WindowGuards.Holds, WindowGuards.Armed, WindowGuards.Expanded;
    var s, w := plan.Analysis(), plan.WindowOf(key).value;
    var n := AccessBounds.Position(s.accesses, key);
    assert AddressWindows.Placed(plan.bounds, plan.placed, s.accesses, s.facts, n);
    assert plan.bounds[w] in plan.bounds;
    WindowGuards.ExpandedArmed(plan.bounds[w], plan.copies);
    AccessBounds.KeysBounded(AccessBounds.START, plan.cycle);
    assert s.accesses[n] in s.accesses;
  }

  /** The fields a window's accesses agree on, which expansion leaves alone. */
  lemma WindowFields(plan: Plan, key: Key)
    requires plan.Valid() && plan.WindowOf(key).Some?
    ensures var w := plan.Windows()[plan.WindowOf(key).value];
            && w.base == key.base && w.load == key.load && key.base < 15 && key.pcBase.None?
            && w.alignment == key.alignment && w.naturalAlignment == key.naturalAlignment
            && w.residue == plan.bounds[plan.WindowOf(key).value].residue
            && (w.stride.Some? ==> key.index.None?)
  {
    hide AccessBounds.AnalyseAll, WindowGuards.Holds, WindowGuards.Expanded, WindowGuards.Armed, AddressWindows.Found;
    PlacedWindow(plan, key);
    var s, w := plan.Analysis(), plan.WindowOf(key).value;
    ExpandedFields(plan.bounds[w], s.accesses[AccessBounds.Position(s.accesses, key)], s.facts, plan.copies);
  }

  lemma ExpandedFields(w: WindowGuards.Window, a: AccessBounds.Access, facts: Facts, copies: nat)
    requires Wellformed(facts) && WindowGuards.Holds(w, a, facts)
    ensures var x := WindowGuards.Expanded(w, copies);
            && x.base == a.key.base && x.load == a.key.load && (x.stride.Some? ==> a.key.index.None?)
            && x.alignment == a.key.alignment && x.naturalAlignment == a.key.naturalAlignment && x.residue == w.residue
  {
    hide WindowGuards.Expanded, Key.Aligned, Wellformed;
    ExpandedKeeps(w, copies);
  }

  /** Widening a window touches its bounds and nothing else that names it. */
  lemma ExpandedKeeps(w: WindowGuards.Window, copies: nat)
    ensures var x := WindowGuards.Expanded(w, copies);
            && x.base == w.base && x.load == w.load && x.stride == w.stride && x.residue == w.residue
            && x.alignment == w.alignment && x.naturalAlignment == w.naturalAlignment
            && x.advance == w.advance && x.strideAdvance == w.strideAdvance
  {
    hide WindowGuards.Stretched;
    if copies != 0 {
      StretchedKeeps(w, w.advance * (copies - 1), w.strideAdvance * (copies - 1));
    }
  }

  lemma StretchedKeeps(w: WindowGuards.Window, last: int, strideLast: int)
    ensures var x := WindowGuards.Stretched(w, last, strideLast);
            && x.base == w.base && x.load == w.load && x.stride == w.stride && x.residue == w.residue
            && x.alignment == w.alignment && x.naturalAlignment == w.naturalAlignment
            && x.advance == w.advance && x.strideAdvance == w.strideAdvance
  {
    hide AccessBounds.Fits, Min, Max;
  }

  /** The copy and the step of the cycle that step t belongs to. */
  lemma CopyOf(t: nat, n: nat, copies: nat)
    requires n > 0 && t < copies * n
    ensures t == t / n * n + t % n && 0 <= t / n < copies && 0 <= t % n < n
  {
    if t / n >= copies {
      Scale(t / n, copies, n);
    }
  }

  /** An access whose window guard passed at group entry lies in the page of its
      base at entry, in whichever copy it happens. */
  lemma WindowAccess(plan: Plan, at: seq<seq<Word>>, t: nat)
    requires plan.Valid() && Runs(plan, at, t) && plan.KeyAt(t).Some? && plan.WindowOf(plan.KeyAt(t).value).Some?
    requires WindowGuards.GuardPasses(plan.Windows()[plan.WindowOf(plan.KeyAt(t).value).value], at[0])
    ensures var key := plan.KeyAt(t).value;
            && |at[t]| == 16 && InPage(EffectiveAddress(key, at[t]), key.size, at[0][key.base])
            && (key.index.Some? ==> Offset(key, at[t]) < PAGE)
            && (EffectiveAddress(key, at[t]) - at[0][key.base] - plan.bounds[plan.WindowOf(key).value].residue)
                 % key.Aligned() == 0
  {
    hide AccessBounds.AnalyseAll, WindowGuards.Holds, WindowGuards.Armed, WindowGuards.Expanded,
         WindowGuards.GuardPasses, EffectiveAddress, Offset, InPage, Retires, AddressWindows.Found;
    var n, key := |plan.cycle|, plan.KeyAt(t).value;
    var q, i, w := t / n, t % n, plan.WindowOf(key).value;
    CopyOf(t, n, plan.copies);
    PlacedWindow(plan, key);
    CopiesOf(plan, at, t, q);
    CopyExecutes(plan, at, t, q, i);
    WindowGuards.WindowGuardSound(plan.cycle, Entries(at, n, q), at[q * n..q * n + i + 1], i, plan.bounds[w], plan.copies);
  }

  /** A run left early is the start of a complete one. */
  lemma {:induction false} Completed(plan: Plan, at: seq<seq<Word>>, t: nat) returns (full: seq<seq<Word>>)
    requires Runs(plan, at, t) && |at| == t + 1
    ensures Runs(plan, full, plan.Length()) && |full| == plan.Length() + 1 && full[..t + 1] == at
    decreases plan.Length() - t
  {
    hide Retires;
    if t == plan.Length() {
      full := at;
    } else {
      RunShape(plan, at, t, t);
      var after := RetiresTotal(plan.StepAt(t).inst, at[t]);
      var longer := at + [after];
      forall u: nat | u < t + 1
        ensures Stepped(plan, longer, u)
      {
        if u < t {
          assert Stepped(plan, at, u);
        }
      }
      full := Completed(plan, longer, t + 1);
      assert full[..t + 1] == full[..t + 2][..t + 1];
    }
  }

  lemma CompleteExecutes(plan: Plan, full: seq<seq<Word>>)
    requires Runs(plan, full, plan.Length()) && |full| == plan.Length() + 1
    ensures AddressSegments.Executes(plan.Path(), full, 0)
  {
    hide Retires;
    var p := plan.Path();
    forall k: nat | k < |p|
      ensures AddressSegments.StepRetires(p, full, 0, k)
    {
      assert Stepped(plan, full, k);
    }
  }

  /** The use that a step's proof was recorded for. */
  lemma SegmentUse(plan: Plan, t: nat, key: Key) returns (id: nat, i: nat)
    requires plan.Valid() && plan.SegmentOf(t, key).Some?
    ensures AddressSegments.UseAt(plan.Groups(), id, i) && AddressSegments.StepOf(plan.Groups(), id, i) == t
    ensures t < plan.Length() && plan.Groups()[id].uses[i].key == key
    ensures plan.SegmentOf(t, key) == AddressSegments.Expected(plan.Groups()[id], id, i)
    ensures plan.SegmentOf(t, key).value.id == id
  {
    hide SegmentGuards.Covered, AddressSegments.Origin, Plan.Groups, Plan.WindowsPlaced, Plan.Shaped, SegmentGuards.SuffixHull;
    id, i :| AddressSegments.UseAt(plan.Groups(), id, i) && AddressSegments.StepOf(plan.Groups(), id, i) == t;
    assert plan.ProofOf(id, i);
  }

  /** The uses of one group are in step order. */
  lemma UsesOrdered(plan: Plan, id: nat, i: nat, j: nat)
    requires AddressSegments.UseAt(plan.Groups(), id, i) && AddressSegments.UseAt(plan.Groups(), id, j)
    requires AddressSegments.StepOf(plan.Groups(), id, i) <= AddressSegments.StepOf(plan.Groups(), id, j)
    ensures i <= j
  {
    hide AddressSegments.ObserveAll;
    AddressSegments.ObserveAllStepped(AddressSegments.Segments([], []), 0, plan.Path());
  }

  /** The guard of a proven access passes in these registers. */
  predicate SegmentPasses(plan: Plan, t: nat, key: Key, regs: seq<Word>)
    requires |regs| == 16
  {
    plan.SegmentOf(t, key).Some? ==>
      var a := plan.SegmentOf(t, key).value;
      SegmentGuards.GuardPasses(a, EffectiveAddress(key, regs), SegmentGuards.StrideValue(a.stride, regs))
  }

  /** After an access whose segment guard passed, a later access of the segment,
      in whatever run of the body got there, lies in the same page, and static
      ones name one anchor. */
  lemma SegmentAccess(plan: Plan, at: seq<seq<Word>>, f: nat, first: Key, t: nat, key: Key)
    requires plan.Valid() && Runs(plan, at, t) && f <= t && |at[f]| == 16
    requires plan.SegmentOf(f, first).Some? && plan.SegmentOf(t, key).Some?
    requires plan.SegmentOf(f, first).value.id == plan.SegmentOf(t, key).value.id
    requires SegmentPasses(plan, f, first, at[f])
    ensures var a, b := plan.SegmentOf(f, first).value, plan.SegmentOf(t, key).value;
            && |at[t]| == 16 && key.load == first.load && key.index.None? && key.pcBase.None? && a.stride == b.stride
            && InPage(EffectiveAddress(key, at[t]), key.size, EffectiveAddress(first, at[f]))
            && EffectiveAddress(key, at[t]) % key.Aligned() == 0
            && -PAGE <= b.offset - a.offset <= PAGE
            && (a.stride.None? ==> Wrap(EffectiveAddress(first, at[f]) - a.offset) ==
                                   Wrap(EffectiveAddress(key, at[t]) - b.offset))
  {
    hide EffectiveAddress, InPage, SegmentGuards.GuardPasses, SegmentGuards.StrideValue, Plan.Analysed, Plan.Shaped, Retires,
         AddressSegments.ObserveAll, AddressSegments.Executes, AddressSegments.Expected, Wrap;
    var id, i := SegmentUse(plan, f, first);
    var id', j := SegmentUse(plan, t, key);
    UsesOrdered(plan, id, i, j);
    RunPrefix(plan, at, t);
    var full := Completed(plan, at[..t + 1], t);
    CompleteExecutes(plan, full);
    assert full[f] == at[f] && full[t] == at[t] by {
      assert full[..t + 1][f] == at[..t + 1][f] && full[..t + 1][t] == at[..t + 1][t];
    }
    AddressSegments.ProvenPair(plan.Path(), full, id, i, j);
    AddressSegments.PathGuardSound(plan.Path(), full, id, i, j);
  }

  lemma RunPrefix(plan: Plan, at: seq<seq<Word>>, t: nat)
    requires Runs(plan, at, t)
    ensures Runs(plan, at[..t + 1], t)
  {
    hide Retires;
    var prefix := at[..t + 1];
    forall u: nat | u < t
      ensures Stepped(plan, prefix, u)
    {
      assert Stepped(plan, at, u);
    }
  }

  /** A window that does not advance finds its base and stride unchanged after
      all copies, so its guard still holds. */
  lemma GuardReturns(plan: Plan, at: seq<seq<Word>>, key: Key)
    requires plan.Valid() && Runs(plan, at, plan.Length()) && plan.WindowOf(key).Some?
    requires var w := plan.Windows()[plan.WindowOf(key).value]; !w.Advances() && WindowGuards.GuardPasses(w, at[0])
    ensures |at[plan.Length()]| == 16
    ensures WindowGuards.GuardPasses(plan.Windows()[plan.WindowOf(key).value], at[plan.Length()])
  {
    hide AccessBounds.AnalyseAll, WindowGuards.Armed, WindowGuards.GuardPasses, WindowGuards.Holds, WindowGuards.Expanded,
         Retires, AddressWindows.Found, Plan.Analysed;
    PlacedWindow(plan, key);
    var s, w, n := plan.Analysis(), plan.bounds[plan.WindowOf(key).value], plan.Length();
    var entries := Entries(at, |plan.cycle|, plan.copies);
    CopiesOf(plan, at, n, plan.copies);
    StillWindow(w, s.accesses[AccessBounds.Position(s.accesses, key)], s.facts, plan.copies);
    WindowGuards.BaseAtCopy(plan.cycle, entries, plan.copies, key.base, w.stride);
    assert entries[0] == at[0] && entries[plan.copies] == at[n];
    SameGuard(plan.Windows()[plan.WindowOf(key).value], at[0], at[n]);
  }

  lemma StillWindow(w: WindowGuards.Window, a: AccessBounds.Access, facts: Facts, copies: nat)
    requires Wellformed(facts) && WindowGuards.Holds(w, a, facts) && !WindowGuards.Expanded(w, copies).Advances()
    ensures var x, e := WindowGuards.Expanded(w, copies), facts.values[a.key.base];
            && x.base == a.key.base && x.stride == w.stride
            && e.Some? && e.value.constant == 0 == e.value.coefficient
            && (w.stride.Some? ==> w.stride.value !in facts.written)
            && (e.value.index.Some? ==> e.value.index == w.stride)
  {
    hide WindowGuards.Expanded, Key.Aligned;
    ExpandedKeeps(w, copies);
  }

  lemma SameGuard(w: WindowGuards.Window, before: seq<Word>, after: seq<Word>)
    requires |before| == |after| == 16 && after[w.base] == before[w.base]
    requires AccessBounds.StrideOf(w.stride, after) == AccessBounds.StrideOf(w.stride, before)
    ensures WindowGuards.GuardPasses(w, after) == WindowGuards.GuardPasses(w, before)
  {
  }

  lemma ReformedExact(key: Key, regs: seq<Word>)
    requires |regs| == 16 && key.index.None? && key.pcBase.None?
    ensures Reformed(key, regs) == EffectiveAddress(key, regs)
  {
  }

  /** What a guarded window access publishes is the window's anchor, and the
      pointer it forms from that value is its own validated pointer. */
  lemma WindowPointers(plan: Plan, v: View, at: seq<seq<Word>>, t: nat)
    requires plan.Valid() && Runs(plan, at, t) && plan.KeyAt(t).Some? && |at[t]| == 16
    requires v.entry == at[0] && v.windows == plan.Views()
    requires var id := plan.IdentityOf(t, plan.KeyAt(t).value);
             id.Window? && WindowGuards.GuardPasses(plan.Windows()[id.index], at[0])
    ensures var key := plan.KeyAt(t).value;
            var id, regs := plan.IdentityOf(t, key), at[t];
            && Publication(plan, t, key, Pointer(v, key, regs), regs) == WindowAnchor(v, id.index)
            && Reference(plan, t, key, WindowAnchor(v, id.index), regs) == Pointer(v, key, regs)
  {
    hide Plan.Analysed, AddressWindows.Found, AccessBounds.AnalyseAll, WindowGuards.GuardPasses, WindowGuards.Expanded,
         Retires, EffectiveAddress, Offset, Reformed, InPage, WindowAnchor, Pointer, PublishedStatic, StaticReference,
         ObservedAll;
    var key, regs := plan.KeyAt(t).value, at[t];
    var w := plan.IdentityOf(t, key).index;
    WindowFields(plan, key);
    WindowAccess(plan, at, t);
    DisplacementSound(plan, at, t, key.base);
    if plan.Windows()[w].stride.Some? {
      ReformedExact(key, regs);
      StridedReferenceExact(v, w, key, regs);
    } else {
      var d := plan.Displacement(t, key.base).value;
      StaticPublication(v, w, key, regs, d);
      StaticReferenceExact(v, w, key, regs, d);
    }
  }

  /** A later access of a segment publishes what an earlier guarded one did, and
      forms its own validated pointer from it. */
  lemma SegmentPointers(plan: Plan, v: View, at: seq<seq<Word>>, f: nat, first: Key, t: nat, key: Key)
    requires plan.Valid() && Runs(plan, at, t) && f <= t && |at[f]| == |at[t]| == 16
    requires plan.IdentityOf(f, first).Segment? && plan.IdentityOf(t, key) == plan.IdentityOf(f, first)
    requires SegmentPasses(plan, f, first, at[f])
    ensures var stored := Publication(plan, f, first, Pointer(v, first, at[f]), at[f]);
            && Publication(plan, t, key, Pointer(v, key, at[t]), at[t]) == stored
            && Reference(plan, t, key, stored, at[t]) == Pointer(v, key, at[t])
  {
    hide Plan.Analysed, AddressWindows.Found, AccessBounds.AnalyseAll, SegmentGuards.GuardPasses, Plan.Displacement,
         Plan.WindowOf, Plan.Windows, Retires, EffectiveAddress, Offset, Reformed, InPage, Pointer, Wrap;
    SegmentAccess(plan, at, f, first, t, key);
    ReformedExact(key, at[t]);
    var a, b := plan.SegmentOf(f, first).value, plan.SegmentOf(t, key).value;
    if a.stride.None? {
      SegmentReferenceExact(v, first, at[f], a.offset, key, at[t], b.offset);
    } else {
      StridedSegmentExact(v, first, at[f], key, at[t]);
    }
  }
}
