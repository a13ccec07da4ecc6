/** Runs of a body in terms of the pointers the emitted code computes.

Slots hold what was published for them, guards decide whether a pass goes on,
and every executed access uses exactly the pointer that validating it afresh
would have given.
 */
module PointerRuns {
  import opened Words
  import opened Wrappers
  import opened Isa
  import opened AddressDisplacements
  import opened AddressKeys
  import opened CachePointers
  import opened PointerPaths
  import AddressCache
  import CacheGuards
  import CacheRuns
  import WindowGuards

  function BodyOf(plan: Plan): CacheRuns.Body
    requires plan.Shaped()
  {
    CacheRuns.Body(plan.conf, plan.Items(), plan.Views(), plan.closed)
  }

  /** Which pages can be accessed directly, and whether unaligned data is permitted. */
  datatype Rules = Rules(mapped: (bool, int) -> bool, unaligned: bool)

  /** One pass over the body: the page translations and access rules, and flags,
      registers and slots before each instruction. */
  datatype Trip = Trip(
    bias: (bool, int) -> int, rules: Rules, flags: seq<Flags>, regs: seq<seq<Word>>, slots: seq<seq<int>>)

  ghost predicate InShape(trip: Trip, t: nat) {
    t < |trip.regs| && t < |trip.flags| && t < |trip.slots| && |trip.regs[t]| == 16 && |trip.slots[t]| == 4
  }

  /** The host pointer a validated access obtains from its page table. */
  function Translated(trip: Trip, key: Key, regs: seq<Word>): int
    requires |regs| == 16
  {
    trip.bias(key.load, EffectiveAddress(key, regs) / PAGE) + EffectiveAddress(key, regs)
  }

  /** The alignment that the policy in force demands. */
  function Demanded(alignment: Alignment, natural: Alignment, unaligned: bool): Alignment {
    if unaligned || alignment >= natural then alignment else natural
  }

  /** What validating an access tests before it translates the address: the
      demanded alignment, that no byte is on another page, and that the page is mapped. */
  predicate Accepted(rules: Rules, key: Key, ea: Word) {
    && ea % Demanded(key.alignment, key.naturalAlignment, rules.unaligned) == 0
    && ea % PAGE + key.size <= PAGE && rules.mapped(key.load, ea / PAGE)
  }

  /** The addresses that a slot of each identity may stand for: the access's own,
      or the entry base of its window. */
  predicate Admitted(plan: Plan, rules: Rules, id: Identity, address: Word) {
    match id
    case Direct(key) => Accepted(rules, key, address)
    case Window(i) =>
      i < |plan.bounds| &&
      var w := plan.Windows()[i];
      rules.mapped(w.load, address / PAGE) &&
      (address + w.residue) % Demanded(w.alignment, w.naturalAlignment, rules.unaligned) == 0
    case Segment(_) => true
  }

  function Admission(plan: Plan, rules: Rules): (Identity, Word) -> bool {
    (id: Identity, address: Word) => Admitted(plan, rules, id, address)
  }

  function OpAt(plan: Plan, t: nat): AddressCache.Op
    requires plan.Shaped()
  {
    CacheRuns.OpAt(BodyOf(plan), t)
  }

  /** An executed guard that was not skipped translates the address and publishes. */
  ghost predicate Validates(plan: Plan, trip: Trip, t: nat)
    requires plan.Valid() && t < plan.Length() && InShape(trip, t)
  {
    && CacheRuns.Executes(plan.StepAt(t).inst, trip.flags[t]) && OpAt(plan, t).Guarded?
    && !CacheRuns.Skips(BodyOf(plan), t, OpAt(plan, t), trip.slots[t])
  }

  /** An executed access at step t goes through validation. */
  ghost predicate Checks(plan: Plan, trip: Trip, t: nat)
    requires plan.Valid() && t < plan.Length() && InShape(trip, t)
  {
    Validates(plan, trip, t) || (CacheRuns.Executes(plan.StepAt(t).inst, trip.flags[t]) && OpAt(plan, t).Uncached?)
  }

  /** The access at step t is one that validation lets through. */
  ghost predicate Passable(plan: Plan, trip: Trip, t: nat)
    requires InShape(trip, t)
  {
    plan.KeyAt(t).Some? ==> Accepted(trip.rules, plan.KeyAt(t).value, EffectiveAddress(plan.KeyAt(t).value, trip.regs[t]))
  }

  /** What a validated access at step t stores. */
  function PublishedAt(plan: Plan, trip: Trip, t: nat): int
    requires plan.Shaped()
  {
    if t < |trip.regs| && |trip.regs[t]| == 16 && plan.KeyAt(t).Some? then
      var key := plan.KeyAt(t).value;
      Publication(plan, t, key, Translated(trip, key, trip.regs[t]), trip.regs[t])
    else 0
  }

  function SlotAt(trip: Trip, t: nat, slot: nat): int {
    if t < |trip.slots| && slot < |trip.slots[t]| then trip.slots[t][slot] else 0
  }

  /** The pointer used by an executed access at step t. */
  ghost function Used(plan: Plan, trip: Trip, t: nat): int
    requires plan.Valid() && plan.KeyAt(t).Some? && InShape(trip, t)
  {
    var key, regs := plan.KeyAt(t).value, trip.regs[t];
    match OpAt(plan, t)
    case Use(slot, _) => Reference(plan, t, key, SlotAt(trip, t, slot), regs)
    case Guarded(slot, _) =>
      Reference(plan, t, key, if Validates(plan, trip, t) then PublishedAt(plan, trip, t) else SlotAt(trip, t, slot), regs)
    case _ => Translated(trip, key, regs)
  }

  /** Step t of a pass retires: a validated access has been accepted, has passed its
      segment's guard if it has one, and has stored what it publishes. */
  ghost predicate Steps(plan: Plan, trip: Trip, t: nat)
    requires plan.Valid() && t < plan.Length()
  {
    && InShape(trip, t) && InShape(trip, t + 1)
    && Retires(plan.StepAt(t).inst, trip.regs[t], trip.regs[t + 1])
    && (AddressCache.PreservesFlags(plan.StepAt(t).inst) ==> trip.flags[t + 1] == trip.flags[t])
    && (Checks(plan, trip, t) ==> Passable(plan, trip, t))
    && (Validates(plan, trip, t) && plan.KeyAt(t).Some? && OpAt(plan, t).identity.Segment? ==>
          SegmentPasses(plan, t, plan.KeyAt(t).value, trip.regs[t]))
    && trip.slots[t + 1] ==
       if Validates(plan, trip, t) && OpAt(plan, t).slot < 4
       then trip.slots[t][OpAt(plan, t).slot := PublishedAt(plan, trip, t)] else trip.slots[t]
  }

  ghost predicate TripRun(plan: Plan, trip: Trip, len: nat)
    requires plan.Valid()
  {
    len <= plan.Length() && InShape(trip, 0) && InShape(trip, len) && forall t: nat :: t < len ==> Steps(plan, trip, t)
  }

  /** The selector's guards: all enabled windows, or only the advancing ones. */
  ghost predicate Guarded(plan: Plan, regs: seq<Word>, all: bool)
    requires |regs| == 16
  {
    forall i: nat :: i < |plan.bounds| ==> WindowGuarded(plan, i, regs, all)
  }

  ghost predicate WindowGuarded(plan: Plan, i: nat, regs: seq<Word>, all: bool)
    requires |regs| == 16 && i < |plan.bounds|
  {
    var w := plan.Windows()[i];
    w.enabled && (all || w.Advances()) ==> WindowGuards.GuardPasses(w, regs)
  }

  /** Pass i runs to the backedge, where the advancing windows are checked again. */
  ghost predicate Closes(plan: Plan, trip: Trip, next: Trip)
    requires plan.Valid()
  {
    && plan.closed && TripRun(plan, trip, plan.Length()) && InShape(next, 0)
    && next.bias == trip.bias && next.rules == trip.rules
    && next.regs[0] == trip.regs[plan.Length()] && next.slots[0] == trip.slots[plan.Length()]
    && Guarded(plan, next.regs[0], false)
  }

  ghost predicate Linked(plan: Plan, trips: seq<Trip>, i: nat)
    requires plan.Valid() && i + 1 < |trips|
  {
    Closes(plan, trips[i], trips[i + 1])
  }

  /** Any number of passes, the last of which may stop anywhere. The selector has
      checked every enabled window and patched slots start empty. */
  ghost predicate Journey(plan: Plan, trips: seq<Trip>, len: nat)
    requires plan.Valid()
  {
    && trips != [] && InShape(trips[0], 0) && Guarded(plan, trips[0].regs[0], true)
    && (forall k: nat :: k < 4 && BodyOf(plan).Patches(k) ==> trips[0].slots[0][k] == 0)
    && (forall i: nat :: i + 1 < |trips| ==> Linked(plan, trips, i))
    && TripRun(plan, trips[|trips| - 1], len)
  }

  /** The operation emitted for the access at step t. */
  lemma OpIs(plan: Plan, t: nat)
    requires plan.Valid() && t < plan.Length()
    ensures var op := OpAt(plan, t);
            && (plan.KeyAt(t).None? <==> op.Plain?)
            && (plan.KeyAt(t).Some? ==> op.identity == plan.IdentityOf(t, plan.KeyAt(t).value))
            && (op.Use? || op.Guarded? ==> op.slot < 4)
  {
    hide AddressCache.Compile, Plan.IdentityOf, Plan.Analysed;
    CacheGuards.CompiledOp(plan.conf, plan.Items(), t);
    assert plan.Items()[t] == plan.ItemAt(t);
  }

  lemma TripRuns(plan: Plan, trip: Trip, len: nat, t: nat)
    requires plan.Valid() && TripRun(plan, trip, len) && t <= len
    ensures Runs(plan, trip.regs, t) && InShape(trip, t)
  {
    hide Plan.Analysed, Retires, Validates, OpAt, PublishedAt;
    forall u: nat | u < t
      ensures u + 1 < |trip.regs| && Stepped(plan, trip.regs, u)
    {
      assert Steps(plan, trip, u);
    }
    if t < len {
      assert Steps(plan, trip, t);
    }
  }

  /** Every window an access can use has its guard passed in these registers. */
  ghost predicate Sheltered(plan: Plan, regs: seq<Word>)
    requires plan.Valid() && |regs| == 16
  {
    forall key: Key :: plan.WindowOf(key).Some? ==> KeySheltered(plan, key, regs)
  }

  ghost predicate KeySheltered(plan: Plan, key: Key, regs: seq<Word>)
    requires plan.Valid() && |regs| == 16 && plan.WindowOf(key).Some?
  {
    WindowGuards.GuardPasses(plan.Windows()[plan.WindowOf(key).value], regs)
  }

  /** All used windows stay guarded at the start of every pass. */
  lemma {:induction false} PassSheltered(plan: Plan, trips: seq<Trip>, len: nat, i: nat)
    requires plan.Valid() && Journey(plan, trips, len) && i < |trips|
    ensures InShape(trips[i], 0) && Sheltered(plan, trips[i].regs[0])
  {
    hide Plan.Analysed, AddressWindows.Found, AccessBounds.AnalyseAll, WindowGuards.GuardPasses, WindowGuards.Expanded, Steps, BodyOf;
    if i == 0 {
      forall key: Key | plan.WindowOf(key).Some?
        ensures KeySheltered(plan, key, trips[0].regs[0])
      {
        assert WindowGuarded(plan, plan.WindowOf(key).value, trips[0].regs[0], true);
      }
    } else {
      PassSheltered(plan, trips, len, i - 1);
      assert Linked(plan, trips, i - 1);
      TripRuns(plan, trips[i - 1], plan.Length(), plan.Length());
      forall key: Key | plan.WindowOf(key).Some?
        ensures KeySheltered(plan, key, trips[i].regs[0])
      {
        assert KeySheltered(plan, key, trips[i - 1].regs[0]);
        assert WindowGuarded(plan, plan.WindowOf(key).value, trips[i].regs[0], false);
        if !plan.Windows()[plan.WindowOf(key).value].Advances() {
          GuardReturns(plan, trips[i - 1].regs, key);
        }
      }
    }
  }

  /** The first true from t on, or the length. */
  function First(hits: seq<bool>, t: nat): (f: nat)
    requires t <= |hits|
    ensures t <= f <= |hits| && (f < |hits| ==> hits[f])
    ensures forall u: nat :: t <= u < f ==> !hits[u]
    decreases |hits| - t
  {
    if t == |hits| || hits[t] then t else First(hits, t + 1)
  }

  /** The first of len steps that validates an access of segment id, or len. */
  ghost function FirstValidated(plan: Plan, trip: Trip, len: nat, id: nat): nat
    requires plan.Valid() && len <= plan.Length()
  {
    First(seq(len, t requires 0 <= t < len => ValidatesSegment(plan, trip, id, t)), 0)
  }

  lemma FirstIs(plan: Plan, trip: Trip, len: nat, id: nat)
    requires plan.Valid() && len <= plan.Length()
    ensures var f := FirstValidated(plan, trip, len, id);
            && f <= len && (f < len ==> ValidatesSegment(plan, trip, id, f))
            && forall u: nat :: u < f ==> !ValidatesSegment(plan, trip, id, u)
  {
    hide Plan.Analysed, AccessBounds.AnalyseAll, ValidatesSegment;
    var hits := seq(len, t requires 0 <= t < len => ValidatesSegment(plan, trip, id, t));
    var f := First(hits, 0);
    forall u: nat | u < f
      ensures !ValidatesSegment(plan, trip, id, u)
    {
      assert !hits[u];
    }
  }

  ghost predicate ValidatesSegment(plan: Plan, trip: Trip, id: nat, t: nat)
    requires plan.Valid()
  {
    t < plan.Length() && InShape(trip, t) && Validates(plan, trip, t) && OpAt(plan, t).identity == Segment(id)
  }

  /** What a segment's slot is anchored to: the publication of its first
      validated access in this pass, and anything at all before there is one. */
  ghost function Anchor(plan: Plan, trip: Trip, len: nat, id: nat, unset: int): int
    requires plan.Valid() && len <= plan.Length()
  {
    var f := FirstValidated(plan, trip, len, id);
    if f < len then PublishedAt(plan, trip, f) else unset
  }

  ghost function ViewOf(plan: Plan, trip: Trip, len: nat, unset: int): View
    requires plan.Valid() && len <= plan.Length() && InShape(trip, 0)
  {
    View(trip.bias, trip.regs[0], plan.Views(), (id: nat) => Anchor(plan, trip, len, id, unset),
         Admission(plan, trip.rules), unset)
  }

  /** What a validated access stores is what its slot should hold. */
  lemma Publishes(plan: Plan, trip: Trip, len: nat, unset: int, t: nat)
    requires plan.Valid() && TripRun(plan, trip, len) && Sheltered(plan, trip.regs[0]) && t < len
    requires InShape(trip, t) && Validates(plan, trip, t) && plan.KeyAt(t).Some?
    ensures PublishedAt(plan, trip, t) == SlotValue(ViewOf(plan, trip, len, unset), OpAt(plan, t).identity, trip.regs[t])
  {
    hide Plan.Analysed, AccessBounds.AnalyseAll, Retires, Validates, Pointer, Publication, WindowGuards.GuardPasses,
         Reference, Plan.IdentityOf, CacheRuns.OpAt, EffectiveAddress, Stepped;
    var key, regs, v := plan.KeyAt(t).value, trip.regs[t], ViewOf(plan, trip, len, unset);
    assert Passable(plan, trip, t) by {
      assert Steps(plan, trip, t);
    }
    OpIs(plan, t);
    TripRuns(plan, trip, len, t);
    TranslatedIs(plan, trip, len, unset, key, regs);
    match plan.IdentityOf(t, key)
    case Direct(_) =>
      DirectPointers(plan, t, key, Pointer(v, key, regs), regs);
      DirectHolds(plan, trip, len, unset, key, regs);
    case Window(_) =>
      WindowSeen(plan, trip, len, unset, t);
    case Segment(id) =>
      assert ValidatesSegment(plan, trip, id, t);
      FirstIs(plan, trip, len, id);
      AnchorReached(plan, trip, len, unset, id, FirstValidated(plan, trip, len, id), t);
  }

  /** The slot of an accepted key holds its pointer, and any other slot nothing. */
  lemma DirectHolds(plan: Plan, trip: Trip, len: nat, unset: int, key: Key, regs: seq<Word>)
    requires plan.Valid() && len <= plan.Length() && InShape(trip, 0) && |regs| == 16
    ensures var v := ViewOf(plan, trip, len, unset);
            SlotValue(v, Direct(key), regs) ==
            if Accepted(trip.rules, key, EffectiveAddress(key, regs)) then Pointer(v, key, regs) else unset
  {
    hide EffectiveAddress, Pointer, Accepted, Plan.Analysed, AccessBounds.AnalyseAll, Anchor;
  }

  /** An access through a window is accepted exactly when the window's entry base
      is; then it publishes the window's anchor and forms its pointer from it. */
  lemma WindowSeen(plan: Plan, trip: Trip, len: nat, unset: int, t: nat)
    requires plan.Valid() && TripRun(plan, trip, len) && Sheltered(plan, trip.regs[0]) && t < len
    requires InShape(trip, t) && plan.KeyAt(t).Some? && plan.IdentityOf(t, plan.KeyAt(t).value).Window?
    ensures var key, regs, v := plan.KeyAt(t).value, trip.regs[t], ViewOf(plan, trip, len, unset);
            var id := plan.IdentityOf(t, key);
            && id.index < |v.windows|
            && Publication(plan, t, key, Pointer(v, key, regs), regs) == WindowAnchor(v, id.index)
            && Reference(plan, t, key, WindowAnchor(v, id.index), regs) == Pointer(v, key, regs)
            && SlotValue(v, id, regs) ==
               if Accepted(trip.rules, key, EffectiveAddress(key, regs)) then WindowAnchor(v, id.index) else unset
  {
    hide Plan.Analysed, AccessBounds.AnalyseAll, Retires, Pointer, Publication, WindowGuards.GuardPasses, Reference,
         Plan.IdentityOf, EffectiveAddress, Stepped, Anchor, WindowAnchor, Accepted, Admitted, InPage, Steps;
    var key := plan.KeyAt(t).value;
    TripRuns(plan, trip, len, t);
    WindowFound(plan, t, key);
    assert KeySheltered(plan, key, trip.regs[0]);
    WindowPointers(plan, ViewOf(plan, trip, len, unset), trip.regs, t);
    WindowAccess(plan, trip.regs, t);
    WindowFields(plan, key);
    WindowAdmits(plan, trip.rules, plan.IdentityOf(t, key).index, key, EffectiveAddress(key, trip.regs[t]), trip.regs[0][key.base]);
  }

  /** In its window's page and on its window's lattice, an access is accepted when
      the window's base is admitted. */
  lemma WindowAdmits(plan: Plan, rules: Rules, i: nat, key: Key, ea: Word, base: Word)
    requires i < |plan.bounds|
    requires var w := plan.Windows()[i];
             && w.load == key.load && w.alignment == key.alignment && w.naturalAlignment == key.naturalAlignment
             && InPage(ea, key.size, base) && (ea - base - w.residue) % key.Aligned() == 0
    ensures Admitted(plan, rules, Window(i), base) <==> Accepted(rules, key, ea)
  {
    hide WindowGuards.Expanded;
    var r := plan.Windows()[i].residue;
    var demanded := Demanded(key.alignment, key.naturalAlignment, rules.unaligned);
    DividesAligned(ea - base - r, demanded, key.Aligned());
    ShiftedResidue(ea, base + r, demanded);
  }

  /** A multiple of the larger alignment is one of the smaller. */
  lemma DividesAligned(x: int, small: Alignment, large: Alignment)
    requires small <= large && x % large == 0
    ensures x % small == 0
  {
    assert x == x / large * large && large == large / small * small by {
      assert large % small == 0;
    }
    DivModUnique(x, small, x / large * (large / small), 0);
  }

  lemma ShiftedResidue(a: int, b: int, m: int)
    requires m > 0 && (a - b) % m == 0
    ensures a % m == b % m
  {
    var q := (a - b) / m;
    assert a == b + q * m;
    DivModUnique(a, m, b / m + q, b % m);
  }

  lemma TranslatedIs(plan: Plan, trip: Trip, len: nat, unset: int, key: Key, regs: seq<Word>)
    requires plan.Valid() && len <= plan.Length() && InShape(trip, 0) && |regs| == 16
    ensures Translated(trip, key, regs) == Pointer(ViewOf(plan, trip, len, unset), key, regs)
  {
    hide EffectiveAddress;
  }

  /** A slot named by its key holds the pointer itself. */
  lemma DirectPointers(plan: Plan, t: nat, key: Key, pointer: int, regs: seq<Word>)
    requires plan.Shaped() && |regs| == 16 && plan.IdentityOf(t, key).Direct?
    ensures plan.IdentityOf(t, key) == Direct(key)
    ensures Publication(plan, t, key, pointer, regs) == pointer && Reference(plan, t, key, pointer, regs) == pointer
  {
    hide Plan.WindowOf, Plan.Displacement;
  }

  lemma WindowFound(plan: Plan, t: nat, key: Key)
    requires plan.Shaped() && plan.IdentityOf(t, key).Window?
    ensures plan.WindowOf(key) == Some(plan.IdentityOf(t, key).index)
  {
    hide Plan.WindowOf, Plan.Displacement;
  }

  /** From a segment's first validated access on, every access of it publishes
      the anchor and forms its validated pointer from it. */
  lemma AnchorReached(plan: Plan, trip: Trip, len: nat, unset: int, id: nat, f: nat, t: nat)
    requires plan.Valid() && TripRun(plan, trip, len) && t < len && f <= t && InShape(trip, t)
    requires f == FirstValidated(plan, trip, len, id)
    requires plan.KeyAt(t).Some? && plan.IdentityOf(t, plan.KeyAt(t).value) == Segment(id)
    ensures var key, v, regs := plan.KeyAt(t).value, ViewOf(plan, trip, len, unset), trip.regs[t];
            var anchor := SlotValue(v, Segment(id), regs);
            && Publication(plan, t, key, Pointer(v, key, regs), regs) == anchor
            && Reference(plan, t, key, anchor, regs) == Pointer(v, key, regs)
  {
    hide Plan.Analysed, AccessBounds.AnalyseAll, Retires, Pointer, Publication, Reference, Plan.IdentityOf,
         CacheRuns.OpAt, CacheRuns.Skips, CacheRuns.Executes, SegmentPasses, EffectiveAddress, Stepped;
    var key, v := plan.KeyAt(t).value, ViewOf(plan, trip, len, unset);
    assert Steps(plan, trip, f);
    OpIs(plan, f);
    assert plan.KeyAt(f).Some?;
    var first := plan.KeyAt(f).value;
    TripRuns(plan, trip, len, t);
    TranslatedIs(plan, trip, len, unset, first, trip.regs[f]);
    SegmentPointers(plan, v, trip.regs, f, first, t, key);
  }

  ghost function PassOf(plan: Plan, trip: Trip, len: nat, unset: int): CacheRuns.Pass
    requires plan.Valid() && len <= plan.Length() && InShape(trip, 0)
  {
    CacheRuns.Pass(ViewOf(plan, trip, len, unset), trip.flags, trip.regs, trip.slots)
  }

  /** A pass of emitted code is a pass of cached slot values. */
  lemma PassRefines(plan: Plan, trip: Trip, len: nat, unset: int, upTo: nat)
    requires plan.Valid() && TripRun(plan, trip, len) && Sheltered(plan, trip.regs[0]) && upTo <= len
    ensures CacheRuns.PassRun(BodyOf(plan), PassOf(plan, trip, len, unset), upTo)
  {
    hide Plan.Analysed, AccessBounds.AnalyseAll, Steps, Sheltered;
    TripRuns(plan, trip, len, upTo);
    forall t: nat | t < upTo
      ensures CacheRuns.PassStep(BodyOf(plan), PassOf(plan, trip, len, unset), t)
    {
      StepRefines(plan, trip, len, unset, t);
    }
  }

  lemma StepRefines(plan: Plan, trip: Trip, len: nat, unset: int, t: nat)
    requires plan.Valid() && TripRun(plan, trip, len) && Sheltered(plan, trip.regs[0]) && t < len
    ensures CacheRuns.PassStep(BodyOf(plan), PassOf(plan, trip, len, unset), t)
  {
    hide Plan.Analysed, AccessBounds.AnalyseAll, Retires, Sheltered, PublishedAt, SlotValue, AddressCache.PreservesFlags,
         CacheRuns.OpAt, CacheRuns.Skips, CacheRuns.Executes;
    assert Steps(plan, trip, t);
    OpIs(plan, t);
    assert BodyOf(plan).items[t] == plan.ItemAt(t);
    if Validates(plan, trip, t) {
      Publishes(plan, trip, len, unset, t);
    }
  }

  /** A whole run of emitted code is a run of cached slot values, whatever the
      segments that a pass never validates are taken to hold. */
  lemma JourneyRefines(plan: Plan, trips: seq<Trip>, len: nat, unset: int) returns (passes: seq<CacheRuns.Pass>)
    requires plan.Valid() && Journey(plan, trips, len)
    ensures |passes| == |trips| && CacheRuns.Loop(BodyOf(plan), passes, len)
    ensures InShape(trips[|trips| - 1], 0) && passes[|trips| - 1] == PassOf(plan, trips[|trips| - 1], len, unset)
  {
    hide Plan.Analysed, AccessBounds.AnalyseAll, Steps, Sheltered, CacheRuns.Body.Patches, CacheRuns.PassStep;
    var last, n := |trips| - 1, plan.Length();
    forall i: nat | i < |trips|
      ensures InShape(trips[i], 0) && Sheltered(plan, trips[i].regs[0])
    {
      PassSheltered(plan, trips, len, i);
    }
    passes := seq(|trips|, i requires 0 <= i < |trips| => PassOf(plan, trips[i], if i < last then n else len, unset));
    forall i: nat | i < |trips|
      ensures CacheRuns.PassRun(BodyOf(plan), passes[i], if i < last then n else len)
      ensures CacheRuns.PassRun(BodyOf(plan), passes[i], 0)
    {
      if i < last {
        assert Linked(plan, trips, i);
      }
      PassRefines(plan, trips[i], if i < last then n else len, unset, if i < last then n else len);
      PassRefines(plan, trips[i], if i < last then n else len, unset, 0);
    }
    forall i: nat | i + 1 < |passes|
      ensures CacheRuns.Linked(BodyOf(plan), passes, i)
    {
      assert Linked(plan, trips, i);
    }
  }

  lemma JourneyPrefix(plan: Plan, trips: seq<Trip>, len: nat, t: nat)
    requires plan.Valid() && Journey(plan, trips, len) && t <= len
    ensures Journey(plan, trips, t)
  {
    hide Plan.Analysed, AccessBounds.AnalyseAll, Steps, Linked, BodyOf;
    TripRuns(plan, trips[|trips| - 1], len, t);
  }

  /** The slot value an access loads is the one it should hold. */
  lemma LoadedExact(plan: Plan, trips: seq<Trip>, t: nat, unset: int)
    requires plan.Valid() && Journey(plan, trips, t + 1) && plan.KeyAt(t).Some? && t < plan.Length()
    ensures var trip, op := trips[|trips| - 1], OpAt(plan, t);
            && InShape(trip, 0) && InShape(trip, t) && Sheltered(plan, trip.regs[0])
            && (op.Use? || op.Guarded? ==> op.slot < 4)
            && (op.Use? || CacheRuns.Skips(BodyOf(plan), t, op, trip.slots[t]) ==>
                  trip.slots[t][op.slot] == SlotValue(ViewOf(plan, trip, t + 1, unset), op.identity, trip.regs[t]))
  {
    hide Plan.Analysed, AccessBounds.AnalyseAll, Steps, Sheltered, ViewOf, SlotValue, CacheRuns.OpAt, CacheRuns.Loop,
         CacheRuns.Body.Patched, Linked;
    var trip := trips[|trips| - 1];
    TripRuns(plan, trip, t + 1, t);
    PassSheltered(plan, trips, t + 1, |trips| - 1);
    OpIs(plan, t);
    var passes := JourneyRefines(plan, trips, t + 1, unset);
    CacheRuns.NeverStale(BodyOf(plan), passes, t + 1, t);
  }

  /** An executed access of a segment comes at or after a validated one of the
      same pass: nothing else can be what its slot holds. */
  lemma SegmentSeen(plan: Plan, trips: seq<Trip>, t: nat, id: nat)
    requires plan.Valid() && Journey(plan, trips, t + 1) && plan.KeyAt(t).Some? && t < plan.Length()
    requires OpAt(plan, t).Use? || OpAt(plan, t).Guarded?
    requires OpAt(plan, t).identity == Segment(id) && InShape(trips[|trips| - 1], t)
    requires CacheRuns.Executes(plan.StepAt(t).inst, trips[|trips| - 1].flags[t])
    ensures FirstValidated(plan, trips[|trips| - 1], t + 1, id) <= t
  {
    hide Plan.Analysed, AccessBounds.AnalyseAll, Linked, Guarded, Sheltered, CacheRuns.OpAt, CacheRuns.Skips, CacheRuns.Executes;
    var trip := trips[|trips| - 1];
    FirstIs(plan, trip, t + 1, id);
    if FirstValidated(plan, trip, t + 1, id) > t {
      assert !ValidatesSegment(plan, trip, id, t);
      LoadedExact(plan, trips, t, 0);
      LoadedExact(plan, trips, t, 1);
    }
  }

  /** After a segment's first validated access every later one is accepted: it is
      in the same page, and the guard asks for the larger alignment. */
  lemma SegmentAccepted(plan: Plan, trip: Trip, len: nat, id: nat, t: nat)
    requires plan.Valid() && TripRun(plan, trip, len) && t < len && InShape(trip, t)
    requires FirstValidated(plan, trip, len, id) <= t
    requires plan.KeyAt(t).Some? && plan.IdentityOf(t, plan.KeyAt(t).value) == Segment(id)
    ensures Passable(plan, trip, t)
  {
    hide Plan.Analysed, AccessBounds.AnalyseAll, Retires, Plan.IdentityOf, CacheRuns.OpAt, CacheRuns.Skips,
         CacheRuns.Executes, SegmentPasses, EffectiveAddress, Stepped;
    FirstIs(plan, trip, len, id);
    var f, key := FirstValidated(plan, trip, len, id), plan.KeyAt(t).value;
    assert Steps(plan, trip, f);
    OpIs(plan, f);
    var first := plan.KeyAt(f).value;
    TripRuns(plan, trip, len, t);
    SegmentsNamed(plan, f, first, t, key, id);
    SegmentAccess(plan, trip.regs, f, first, t, key);
    DividesAligned(EffectiveAddress(key, trip.regs[t]), Demanded(key.alignment, key.naturalAlignment, trip.rules.unaligned),
                   key.Aligned());
  }

  lemma SegmentsNamed(plan: Plan, f: nat, first: Key, t: nat, key: Key, id: nat)
    requires plan.Shaped() && plan.IdentityOf(f, first) == Segment(id) && plan.IdentityOf(t, key) == Segment(id)
    ensures plan.SegmentOf(f, first).Some? && plan.SegmentOf(t, key).Some?
    ensures plan.SegmentOf(f, first).value.id == plan.SegmentOf(t, key).value.id == id
  {
    hide Plan.WindowOf, Plan.Displacement;
  }

  /** No access uses a slot for an address that validation would have refused: a
      reused or kept pointer stands only for mapped pages and demanded alignments. */
  lemma OnlyAccepted(plan: Plan, trips: seq<Trip>, len: nat, t: nat)
    requires plan.Valid() && Journey(plan, trips, len) && t < len && plan.KeyAt(t).Some?
    requires InShape(trips[|trips| - 1], t) && CacheRuns.Executes(plan.StepAt(t).inst, trips[|trips| - 1].flags[t])
    ensures Passable(plan, trips[|trips| - 1], t)
  {
    hide Plan.Analysed, AccessBounds.AnalyseAll, Linked, Guarded, CacheRuns.OpAt, CacheRuns.Skips, CacheRuns.Executes, Retires,
         Pointer, Plan.IdentityOf, EffectiveAddress, Stepped, WindowGuards.GuardPasses, PublishedAt, Accepted, ViewOf, SlotValue;
    var trip, n := trips[|trips| - 1], t + 1;
    JourneyPrefix(plan, trips, len, n);
    assert Steps(plan, trip, t);
    OpIs(plan, t);
    if !Checks(plan, trip, t) {
      var key, regs := plan.KeyAt(t).value, trip.regs[t];
      LoadedExact(plan, trips, t, 0);
      LoadedExact(plan, trips, t, 1);
      match plan.IdentityOf(t, key)
      case Direct(other) =>
        DirectPointers(plan, t, key, 0, regs);
        DirectHolds(plan, trip, n, 0, key, regs);
        DirectHolds(plan, trip, n, 1, key, regs);
      case Window(_) =>
        WindowSeen(plan, trip, n, 0, t);
        WindowSeen(plan, trip, n, 1, t);
      case Segment(id) =>
        SegmentSeen(plan, trips, t, id);
        SegmentAccepted(plan, trip, n, id, t);
    }
  }

  /** The composed theorem. At every executed access of every pass of every run,
      whether its pointer was validated there, reused from a slot, or kept across
      the backedge, the emitted code uses exactly the pointer that translating
      the access's own address there would give, and that address is one that
      validation lets through. */
  lemma PointersExact(plan: Plan, trips: seq<Trip>, len: nat, t: nat)
    requires plan.Valid() && Journey(plan, trips, len) && t < len && plan.KeyAt(t).Some?
    requires InShape(trips[|trips| - 1], t) && CacheRuns.Executes(plan.StepAt(t).inst, trips[|trips| - 1].flags[t])
    ensures var trip, key := trips[|trips| - 1], plan.KeyAt(t).value;
            && Used(plan, trip, t) == Translated(trip, key, trip.regs[t])
            && Accepted(trip.rules, key, EffectiveAddress(key, trip.regs[t]))
  {
    hide Plan.Analysed, AccessBounds.AnalyseAll, Linked, Guarded, CacheRuns.OpAt, CacheRuns.Skips, CacheRuns.Executes, Retires,
         Pointer, Publication, Reference, Plan.IdentityOf, EffectiveAddress, Stepped, WindowGuards.GuardPasses, PublishedAt,
         Accepted;
    var trip, key, op, n := trips[|trips| - 1], plan.KeyAt(t).value, OpAt(plan, t), t + 1;
    var v, regs := ViewOf(plan, trip, n, 0), trip.regs[t];
    JourneyPrefix(plan, trips, len, n);
    assert TripRun(plan, trip, n);
    OnlyAccepted(plan, trips, len, t);
    LoadedExact(plan, trips, t, 0);
    OpIs(plan, t);
    TripRuns(plan, trip, n, t);
    TranslatedIs(plan, trip, n, 0, key, regs);
    if Validates(plan, trip, t) {
      Publishes(plan, trip, n, 0, t);
    }
    if op.Use? || op.Guarded? {
      match plan.IdentityOf(t, key)
      case Direct(_) =>
        DirectPointers(plan, t, key, Pointer(v, key, regs), regs);
        DirectHolds(plan, trip, n, 0, key, regs);
      case Window(_) =>
        WindowSeen(plan, trip, n, 0, t);
      case Segment(id) =>
        SegmentSeen(plan, trips, t, id);
        AnchorReached(plan, trip, n, 0, id, FirstValidated(plan, trip, n, id), t);
    }
  }

  /** In one pass the accesses at steps f and t go through the same window or the
      same segment, and the first of them is executed. */
  ghost predicate Shares(plan: Plan, trips: seq<Trip>, len: nat, f: nat, t: nat)
    requires plan.Valid()
  {
    && Journey(plan, trips, len) && f <= t < len && plan.KeyAt(f).Some? && plan.KeyAt(t).Some?
    && InShape(trips[|trips| - 1], f) && InShape(trips[|trips| - 1], t)
    && CacheRuns.Executes(plan.StepAt(f).inst, trips[|trips| - 1].flags[f])
    && (OpAt(plan, f).Use? || OpAt(plan, f).Guarded?)
    && !plan.IdentityOf(f, plan.KeyAt(f).value).Direct?
    && plan.IdentityOf(t, plan.KeyAt(t).value) == plan.IdentityOf(f, plan.KeyAt(f).value)
  }

  /** Two accesses in one page and one direction. */
  ghost predicate Together(plan: Plan, trip: Trip, f: nat, t: nat)
    requires InShape(trip, f) && InShape(trip, t)
  {
    plan.KeyAt(f).Some? && plan.KeyAt(t).Some? &&
    var first, key := plan.KeyAt(f).value, plan.KeyAt(t).value;
    key.load == first.load && EffectiveAddress(key, trip.regs[t]) / PAGE == EffectiveAddress(first, trip.regs[f]) / PAGE
  }

  /** Accesses of one pass that go through the same window or the same segment lie
      together: the guard that let the first through saw to that. */
  lemma OnePage(plan: Plan, trips: seq<Trip>, len: nat, f: nat, t: nat)
    requires plan.Valid() && Shares(plan, trips, len, f, t)
    ensures Together(plan, trips[|trips| - 1], f, t)
  {
    hide Plan.Analysed, AccessBounds.AnalyseAll, Linked, Guarded, CacheRuns.OpAt, CacheRuns.Skips, CacheRuns.Executes, Retires,
         Plan.IdentityOf, EffectiveAddress, Stepped, Steps, Sheltered, BodyOf;
    var trip := trips[|trips| - 1];
    match plan.IdentityOf(f, plan.KeyAt(f).value)
    case Window(i) =>
      PassSheltered(plan, trips, len, |trips| - 1);
      WindowPage(plan, trip, len, f, t, i);
    case Segment(id) =>
      OpIs(plan, f);
      JourneyPrefix(plan, trips, len, f + 1);
      SegmentSeen(plan, trips, f, id);
      FirstIs(plan, trip, f + 1, id);
      SegmentPage(plan, trip, len, id, FirstValidated(plan, trip, f + 1, id), f);
      SegmentPage(plan, trip, len, id, FirstValidated(plan, trip, f + 1, id), t);
  }

  lemma WindowPage(plan: Plan, trip: Trip, len: nat, f: nat, t: nat, i: nat)
    requires plan.Valid() && TripRun(plan, trip, len) && Sheltered(plan, trip.regs[0]) && f < len && t < len
    requires InShape(trip, f) && InShape(trip, t) && plan.KeyAt(f).Some? && plan.KeyAt(t).Some?
    requires plan.IdentityOf(f, plan.KeyAt(f).value) == plan.IdentityOf(t, plan.KeyAt(t).value) == Window(i)
    ensures Together(plan, trip, f, t)
  {
    hide Plan.Analysed, AccessBounds.AnalyseAll, Retires, Plan.IdentityOf, EffectiveAddress, Stepped, WindowGuards.GuardPasses,
         WindowGuards.Expanded, Steps;
    var first, key := plan.KeyAt(f).value, plan.KeyAt(t).value;
    TripRuns(plan, trip, len, f);
    TripRuns(plan, trip, len, t);
    WindowFound(plan, f, first);
    WindowFound(plan, t, key);
    assert KeySheltered(plan, first, trip.regs[0]) && KeySheltered(plan, key, trip.regs[0]);
    WindowFields(plan, first);
    WindowFields(plan, key);
    WindowAccess(plan, trip.regs, f);
    WindowAccess(plan, trip.regs, t);
  }

  lemma SegmentPage(plan: Plan, trip: Trip, len: nat, id: nat, f: nat, t: nat)
    requires plan.Valid() && TripRun(plan, trip, len) && f <= t < len && InShape(trip, t) && ValidatesSegment(plan, trip, id, f)
    requires plan.KeyAt(t).Some? && plan.IdentityOf(t, plan.KeyAt(t).value) == Segment(id)
    ensures Together(plan, trip, f, t)
  {
    hide Plan.Analysed, AccessBounds.AnalyseAll, Retires, Plan.IdentityOf, CacheRuns.OpAt, CacheRuns.Skips,
         CacheRuns.Executes, SegmentPasses, EffectiveAddress, Stepped;
    assert Steps(plan, trip, f);
    OpIs(plan, f);
    TripRuns(plan, trip, len, t);
    var first, key := plan.KeyAt(f).value, plan.KeyAt(t).value;
    SegmentsNamed(plan, f, first, t, key, id);
    SegmentAccess(plan, trip.regs, f, first, t, key);
  }
}
