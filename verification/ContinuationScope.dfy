/** Validation cookies: a linked fragment may run only if its dependencies were
    validated in the same native invocation.

Every invocation takes a fresh cookie. Each table owns six validation cells, one
per code region; a descriptor names the cell of the region that covers its
dependency, or the cookie owned by its own multi-view entry.
 */
module ContinuationScope {
  import opened Wrappers
  import opened Regions
  import opened ContinuationTable

  const CELLS: nat := 6

  /** A validation cell. Domain zero is the null identity of an unused cell. */
  datatype View = View(domain: nat, region: Region, cookie: nat)

  /** A cached translation, with what makes the resolver refuse it. */
  datatype Entry = Entry(
    domain: nat, profile: nat, pc: bv32, endian: bool, thumb: bool, it: bv32,
    dependency: Region, multiView: bool, maximumTicks: nat, closed: bool, endsWithStop: bool,
    linkable: bool, deferred: bool)
  {
    function Status(): bv32 {
      EncodeStatus(endian, thumb, it)
    }
  }

  datatype Slot = Slot(revision: nat, domain: nat, region: Region, profile: nat, views: seq<View>, table: Table)

  const NO_VIEW: View := View(0, Region(0, 0), 0)

  const FRESH_VIEWS: seq<View> := [NO_VIEW, NO_VIEW, NO_VIEW, NO_VIEW, NO_VIEW, NO_VIEW]

  const UNUSED: Slot := Slot(0, 0, Region(0, 0), 0, FRESH_VIEWS, Table(map[], {}))

  /** The cache as continuations see it; generations holds the epoch of each domain
      that has one. The sets validated and pinned record, for the current
      invocation, the regions it validated, each under its domain's epoch, and the
      multi-view entries. */
  datatype State = State(
    cookie: nat, revision: nat, entries: map<nat, Entry>, generations: map<nat, nat>, owned: map<nat, nat>,
    slots: seq<Slot>, replacement: nat, running: bool, active: nat,
    validated: set<(nat, nat, Region)>, pinned: set<nat>)

  const INITIAL: State := State(0, 1, map[], map[], map[], [UNUSED, UNUSED], 0, false, 0, {}, {})

  function DescriptorOf(id: nat, e: Entry, validation: Validation): Descriptor {
    Descriptor(e.pc, e.Status(), e.maximumTicks, e.closed, e.endsWithStop, id, validation)
  }

  function CookieOf(s: State, slot: Slot, d: Descriptor): Option<nat> {
    match d.validation
    case Cell(i) => if i < |slot.views| then Some(slot.views[i].cookie) else None
    case Owned(owner) => if owner in s.owned then Some(s.owned[owner]) else None
  }

  predicate Names(d: Descriptor, cell: nat) {
    d.validation == Cell(cell)
  }

  /** The cell already holding this domain and region, or the cell count. */
  function MatchingCell(views: seq<View>, domain: nat, region: Region, from: nat): (i: nat)
    requires from <= |views|
    ensures from <= i <= |views|
    ensures i < |views| ==> views[i].domain == domain && views[i].region == region
    decreases |views| - from
  {
    if from == |views| || (views[from].domain == domain && views[from].region == region) then from
    else MatchingCell(views, domain, region, from + 1)
  }

  /** The first cell not live in this invocation, or the cell count. */
  function IdleCell(views: seq<View>, cookie: nat, from: nat): (i: nat)
    requires from <= |views|
    ensures from <= i <= |views| && (i < |views| ==> views[i].cookie != cookie)
    decreases |views| - from
  {
    if from == |views| || views[from].cookie != cookie then from else IdleCell(views, cookie, from + 1)
  }

  /** Validate one region: reuse its cell, or repurpose an idle cell after
      discarding every descriptor that names it. */
  function ValidateView(slot: Slot, cookie: nat, domain: nat, region: Region): (Slot, Option<nat>) {
    var same := MatchingCell(slot.views, domain, region, 0);
    if same < |slot.views| then
      (slot.(views := slot.views[same := slot.views[same].(cookie := cookie)]), Some(same))
    else
      var idle := IdleCell(slot.views, cookie, 0);
      if idle == |slot.views| then (slot, None)
      else
        (slot.(views := slot.views[idle := View(domain, region, cookie)],
               table := Clear(slot.table, set p | p in slot.table.entries && Names(slot.table.entries[p], idle))),
         Some(idle))
  }

  predicate Shaped(s: State) {
    |s.slots| == 2 && |s.slots[0].views| == CELLS && |s.slots[1].views| == CELLS
  }

  /** The table slot an invocation uses: one prepared for the same revision,
      domain, region and profile, or the next one in turn, emptied. */
  predicate Reusable(slot: Slot, s: State, root: Entry, region: Region) {
    slot.revision == s.revision && slot.domain == root.domain && slot.region == region && slot.profile == root.profile
  }

  function Prepare(s: State, id: nat, region: Region): State
    requires Shaped(s)
  {
    if id !in s.entries || s.entries[id].domain == 0 || s.entries[id].domain !in s.generations || !s.entries[id].linkable ||
       (!s.entries[id].multiView && !region.Contains(s.entries[id].dependency))
    then s.(running := false)
    else
      var root := s.entries[id];
      var cookie := s.cookie + 1;
      var kept := if Reusable(s.slots[0], s, root, region) then Some(0)
                  else if Reusable(s.slots[1], s, root, region) then Some(1) else None;
      var active := if kept.Some? then kept.value else s.replacement % 2;
      var slot := if kept.Some? then s.slots[active]
                  else UNUSED.(revision := s.revision, domain := root.domain, region := region, profile := root.profile);
      var d := DescriptorOf(id, root, if root.multiView then Owned(id) else Cell(0));
      s.(cookie := cookie,
         owned := if root.multiView then s.owned[id := cookie] else s.owned,
         slots := s.slots[active := slot.(views := slot.views[0 := View(root.domain, region, cookie)],
                                          table := Store(slot.table, d))],
         replacement := if kept.Some? then s.replacement else s.replacement + 1,
         running := true, active := active,
         validated := {(root.domain, s.generations[root.domain], region)}, pinned := if root.multiView then {id} else {})
  }

  /** What the lease says about the guest address being resolved. */
  datatype Lease = Lease(domain: nat, generation: Option<nat>, region: Region, pins: bool, inspectable: bool)

  /** The lease's epoch is the one the cache holds for the domain. */
  predicate SameEpoch(s: State, l: Lease) {
    l.domain != 0 && l.generation.Some? && l.domain in s.generations && s.generations[l.domain] == l.generation.value
  }

  predicate Finds(e: Entry, domain: nat, profile: nat, pc: bv32, status: bv32) {
    e.domain == domain && e.profile == profile && e.pc == pc &&
    e.endian == (status & 0x200 != 0) && e.thumb == (status & 0x20 != 0) && e.it == DecodeIt(status)
  }

  /** The resolver, for the entry id it found under the decoded key, if any. */
  function Resolve(s: State, pc: bv32, status: bv32, lease: Option<Lease>, id: nat): State
    requires Shaped(s)
  {
    if !s.running || s.active >= 2 || lease.None? || !SameEpoch(s, lease.value) || id !in s.entries then s
    else
      var e, l, slot := s.entries[id], lease.value, s.slots[s.active];
      if !Finds(e, l.domain, slot.profile, pc, status) || !e.linkable || (e.deferred && l.inspectable) then s
      else if e.multiView then
        if !l.pins then s
        else
          s.(owned := s.owned[id := s.cookie], pinned := s.pinned + {id},
             slots := s.slots[s.active := slot.(table := Store(slot.table, DescriptorOf(id, e, Owned(id))))])
      else if !l.region.Contains(e.dependency) then s
      else
        var (validated, cell) := ValidateView(slot, s.cookie, l.domain, l.region);
        if cell.None? then s
        else
          s.(validated := s.validated + {(l.domain, l.generation.value, l.region)},
             slots := s.slots[s.active := validated.(table := Store(validated.table, DescriptorOf(id, e, Cell(cell.value))))])
  }

  datatype Event =
    | Enter(id: nat, region: Region)
    | Probed(pc: bv32, status: bv32, lease: Option<Lease>, id: nat)
    | Warmed
    | Left
    | Changed(entries: map<nat, Entry>, generations: map<nat, nat>)

  /** One event. The cache never mutates while native code runs; visits counted by
      the resolver may only move the revision on. */
  function Step(s: State, e: Event): State
    requires Shaped(s)
  {
    match e
    case Enter(id, region) => if s.running then s else Prepare(s, id, region)
    case Probed(pc, status, lease, id) => Resolve(s, pc, status, lease, id)
    case Warmed => s.(revision := s.revision + 1)
    case Left => s.(running := false)
    case Changed(entries, generations) =>
      if s.running then s else s.(entries := entries, generations := generations, revision := s.revision + 1)
  }

  /** A descriptor is a live entry's, and its cell covers that entry's dependency. */
  predicate DescriptorValid(entries: map<nat, Entry>, views: seq<View>, d: Descriptor) {
    d.owner in entries &&
    var e := entries[d.owner];
    d == DescriptorOf(d.owner, e, d.validation) &&
    match d.validation
    case Cell(i) => i < |views| && !e.multiView && views[i].domain == e.domain && views[i].region.Contains(e.dependency)
    case Owned(owner) => owner == d.owner && e.multiView
  }

  /** Descriptors are valid and cell zero always belongs to the table's own region. */
  ghost predicate SlotValid(entries: map<nat, Entry>, slot: Slot) {
    && |slot.views| == CELLS && slot.views[0].domain == slot.domain && slot.views[0].region == slot.region
    && Unique(slot.table)
    && forall p: Place :: p in slot.table.entries ==> DescriptorValid(entries, slot.views, slot.table.entries[p])
  }

  /** A live cell belongs to the table in use and to a region validated now. */
  ghost predicate CellValid(s: State, i: nat, v: View) {
    v.cookie <= s.cookie &&
    (s.running && v.cookie == s.cookie ==>
       i == s.active && v.domain in s.generations && (v.domain, s.generations[v.domain], v.region) in s.validated)
  }

  ghost predicate Current(s: State, i: nat)
    requires i < |s.slots|
  {
    s.slots[i].revision == s.revision || (s.running && i == s.active)
  }

  ghost predicate Valid(s: State) {
    && Shaped(s) && s.revision > 0
    && (forall i: nat :: i < 2 ==> s.slots[i].revision <= s.revision && (Current(s, i) ==> SlotValid(s.entries, s.slots[i])))
    && (forall i: nat, j: nat :: i < 2 && j < CELLS ==> CellValid(s, i, s.slots[i].views[j]))
    && (forall o: nat :: o in s.owned ==> s.owned[o] <= s.cookie && (s.running && s.owned[o] == s.cookie ==> o in s.pinned))
    && (s.running ==> s.active < 2 && s.cookie > 0 && s.slots[s.active].views[0].cookie == s.cookie)
  }

  lemma StoreValid(entries: map<nat, Entry>, slot: Slot, d: Descriptor)
    requires SlotValid(entries, slot) && DescriptorValid(entries, slot.views, d)
    ensures SlotValid(entries, slot.(table := Store(slot.table, d)))
  {
    hide Select, DescriptorValid, Unique;
    StoreUnique(slot.table, d);
  }

  /** Validating a region changes no cell that a remaining descriptor names,
      except to renew its cookie. */
  lemma ValidateValid(entries: map<nat, Entry>, slot: Slot, cookie: nat, domain: nat, region: Region)
    requires SlotValid(entries, slot) && slot.views[0].cookie == cookie
    ensures var (out, cell) := ValidateView(slot, cookie, domain, region);
            && SlotValid(entries, out) && out.views[0].cookie == cookie
            && out.(views := slot.views, table := slot.table) == slot
            && (cell.None? ==> out == slot)
            && (cell.Some? ==> cell.value < CELLS && out.views == slot.views[cell.value := View(domain, region, cookie)])
  {
    hide Clear, Unique, Region.Contains, DescriptorOf;
    var same := MatchingCell(slot.views, domain, region, 0);
    var idle := IdleCell(slot.views, cookie, 0);
    if same < |slot.views| {
      assert slot.views[same].(cookie := cookie) == View(domain, region, cookie);
    } else if idle < |slot.views| {
      var gone := set p | p in slot.table.entries && Names(slot.table.entries[p], idle);
      ClearUnique(slot.table, gone);
      ClearedValid(entries, slot, idle, View(domain, region, cookie));
    }
  }

  /** A cell that no descriptor names any more may change. */
  lemma ClearedValid(entries: map<nat, Entry>, slot: Slot, idle: nat, view: View)
    requires SlotValid(entries, slot) && 0 < idle < CELLS
    ensures var gone := set p | p in slot.table.entries && Names(slot.table.entries[p], idle);
            SlotValid(entries, slot.(views := slot.views[idle := view], table := Clear(slot.table, gone)))
  {
    hide Region.Contains, DescriptorOf, Unique;
    ClearUnique(slot.table, set p | p in slot.table.entries && Names(slot.table.entries[p], idle));
  }

  /** What a resolution that answers changes. */
  lemma Resolved(s: State, pc: bv32, status: bv32, lease: Option<Lease>, id: nat)
    requires Shaped(s) && Resolve(s, pc, status, lease, id) != s
    ensures s.running && s.active < 2 && lease.Some? && SameEpoch(s, lease.value) && id in s.entries
    ensures var t, e, l, slot := Resolve(s, pc, status, lease, id), s.entries[id], lease.value, s.slots[s.active];
            && Finds(e, l.domain, slot.profile, pc, status)
            && if e.multiView then
                 t == s.(owned := s.owned[id := s.cookie], pinned := s.pinned + {id},
                         slots := s.slots[s.active := slot.(table := Store(slot.table, DescriptorOf(id, e, Owned(id))))])
               else
                 var (out, cell) := ValidateView(slot, s.cookie, l.domain, l.region);
                 && l.region.Contains(e.dependency) && cell.Some?
                 && t == s.(validated := s.validated + {(l.domain, l.generation.value, l.region)},
                            slots := s.slots[s.active := out.(table := Store(out.table, DescriptorOf(id, e, Cell(cell.value))))])
  {
    hide Store, ValidateView, Finds, DescriptorOf, Region.Contains;
    var (_, cell) := ValidateView(s.slots[s.active], s.cookie, lease.value.domain, lease.value.region);
    assert cell.None? || cell.Some?;
  }

  lemma ResolveValid(s: State, pc: bv32, status: bv32, lease: Option<Lease>, id: nat)
    requires Valid(s)
    ensures Valid(Resolve(s, pc, status, lease, id))
  {
    hide Store, SlotValid, ValidateView, Finds, DescriptorOf, Resolve, Region.Contains;
    var t := Resolve(s, pc, status, lease, id);
    if t != s {
      Resolved(s, pc, status, lease, id);
      var e, l, slot := s.entries[id], lease.value, s.slots[s.active];
      if e.multiView {
        MultiStore(s, slot, id);
      } else {
        RegionStore(s, slot, id, l, pc, status);
        var (out, cell) := ValidateView(slot, s.cookie, l.domain, l.region);
        assert cell.Some? && t.slots[s.active].views == slot.views[cell.value := View(l.domain, l.region, s.cookie)];
        forall i: nat, j: nat | i < 2 && j < CELLS
          ensures CellValid(t, i, t.slots[i].views[j])
        {
          assert CellValid(s, i, s.slots[i].views[j]);
        }
      }
    }
  }

  lemma MultiStore(s: State, slot: Slot, id: nat)
    requires SlotValid(s.entries, slot) && id in s.entries && s.entries[id].multiView
    ensures SlotValid(s.entries, slot.(table := Store(slot.table, DescriptorOf(id, s.entries[id], Owned(id)))))
  {
    StoreValid(s.entries, slot, DescriptorOf(id, s.entries[id], Owned(id)));
  }

  lemma RegionStore(s: State, slot: Slot, id: nat, l: Lease, pc: bv32, status: bv32)
    requires SlotValid(s.entries, slot) && slot.views[0].cookie == s.cookie && id in s.entries
    requires var e := s.entries[id];
             !e.multiView && Finds(e, l.domain, slot.profile, pc, status) && l.region.Contains(e.dependency)
    ensures var (out, cell) := ValidateView(slot, s.cookie, l.domain, l.region);
            && SlotValid(s.entries, out)
            && (cell.None? ==> out == slot)
            && (cell.Some? ==>
                  && cell.value < CELLS && out.views == slot.views[cell.value := View(l.domain, l.region, s.cookie)]
                  && out.views[0].cookie == s.cookie && out.revision == slot.revision
                  && SlotValid(s.entries, out.(table := Store(out.table, DescriptorOf(id, s.entries[id], Cell(cell.value))))))
  {
    hide ValidateView;
    ValidateValid(s.entries, slot, s.cookie, l.domain, l.region);
    var (out, cell) := ValidateView(slot, s.cookie, l.domain, l.region);
    if cell.Some? {
      StoreValid(s.entries, out, DescriptorOf(id, s.entries[id], Cell(cell.value)));
    }
  }

  /** The slot an invocation starts from, its own region in cell zero. */
  function RootSlot(s: State, i: nat, root: Entry, region: Region, cookie: nat): Slot
    requires Shaped(s) && i < 2
  {
    var before := if Reusable(s.slots[i], s, root, region) then s.slots[i]
                  else UNUSED.(revision := s.revision, domain := root.domain, region := region, profile := root.profile);
    before.(views := before.views[0 := View(root.domain, region, cookie)])
  }

  lemma RootValid(s: State, i: nat, id: nat, region: Region, cookie: nat)
    requires Shaped(s) && i < 2 && id in s.entries
    requires Reusable(s.slots[i], s, s.entries[id], region) ==> SlotValid(s.entries, s.slots[i])
    requires s.entries[id].multiView || region.Contains(s.entries[id].dependency)
    ensures var root := s.entries[id];
            var slot := RootSlot(s, i, root, region, cookie);
            var d := DescriptorOf(id, root, if root.multiView then Owned(id) else Cell(0));
            SlotValid(s.entries, slot) && SlotValid(s.entries, slot.(table := Store(slot.table, d)))
  {
    hide Store, Entry.Status;
    var root := s.entries[id];
    var slot := RootSlot(s, i, root, region, cookie);
    StoreValid(s.entries, slot, DescriptorOf(id, root, if root.multiView then Owned(id) else Cell(0)));
  }

  /** What a prepared invocation changes. */
  lemma Prepared(s: State, id: nat, region: Region)
    requires Valid(s) && !s.running && Prepare(s, id, region).running
    ensures var t := Prepare(s, id, region);
            && id in s.entries && t.active < 2
            && var root := s.entries[id];
            && root.domain in s.generations && (root.multiView || region.Contains(root.dependency))
            && t == s.(cookie := s.cookie + 1, owned := if root.multiView then s.owned[id := s.cookie + 1] else s.owned,
                       slots := t.slots, replacement := t.replacement, running := true, active := t.active,
                       validated := {(root.domain, s.generations[root.domain], region)},
                       pinned := if root.multiView then {id} else {})
            && var slot := RootSlot(s, t.active, root, region, t.cookie);
            t.slots == s.slots[t.active :=
              slot.(table := Store(slot.table, DescriptorOf(id, root, if root.multiView then Owned(id) else Cell(0))))]
  {
    hide Store, DescriptorOf, SlotValid, CellValid;
  }

  lemma PrepareValid(s: State, id: nat, region: Region)
    requires Valid(s) && !s.running
    ensures Valid(Prepare(s, id, region))
  {
    hide Store, DescriptorOf, SlotValid, Region.Contains, Prepare;
    var t := Prepare(s, id, region);
    if t.running {
      Prepared(s, id, region);
      RootValid(s, t.active, id, region, t.cookie);
      forall i: nat, j: nat | i < 2 && j < CELLS
        ensures CellValid(t, i, t.slots[i].views[j])
      {
        assert CellValid(s, i, s.slots[i].views[j]);
      }
    } else {
      PrepareRefused(s, id, region);
    }
  }

  lemma PrepareRefused(s: State, id: nat, region: Region)
    requires Shaped(s) && !Prepare(s, id, region).running
    ensures Prepare(s, id, region) == s.(running := false)
  {
  }

  lemma StepValid(s: State, e: Event)
    requires Valid(s)
    ensures Valid(Step(s, e))
  {
    hide SlotValid, Prepare, Resolve;
    match e
    case Enter(id, region) => if !s.running { PrepareValid(s, id, region); }
    case Probed(pc, status, lease, id) => ResolveValid(s, pc, status, lease, id);
    case _ =>
  }

  function Run(s: State, events: seq<Event>): (t: State)
    requires Shaped(s)
    ensures Shaped(t)
    decreases |events|
  {
    if events == [] then s
    else
      StepShaped(s, events[0]);
      Run(Step(s, events[0]), events[1..])
  }

  lemma StepShaped(s: State, e: Event)
    requires Shaped(s)
    ensures Shaped(Step(s, e))
  {
    hide Store;
  }

  lemma {:induction false} RunValid(s: State, events: seq<Event>)
    requires Valid(s)
    ensures Valid(Run(s, events))
    decreases |events|
  {
    hide Step;
    if events != [] {
      StepValid(s, events[0]);
      StepShaped(s, events[0]);
      RunValid(Step(s, events[0]), events[1..]);
    }
  }

  /** A descriptor found under this key belongs to a live entry with that key, and
      the current invocation validated a region of the entry's domain, under the
      epoch the cache holds for it, that covers its dependency, or pinned all its
      views. */
  ghost predicate Vouched(s: State, d: Descriptor, pc: bv32, status: bv32) {
    && d.owner in s.entries
    && var e := s.entries[d.owner];
    && e.pc == pc && e.Status() == status && d.maximumTicks == e.maximumTicks
    && if e.multiView then d.owner in s.pinned
       else e.domain in s.generations &&
            exists region: Region :: (e.domain, s.generations[e.domain], region) in s.validated && region.Contains(e.dependency)
  }

  /** Whatever invocations, resolutions, collisions and cache changes came before,
      every descriptor the dispatcher accepts under the current cookie is vouched
      for by the current invocation. */
  lemma HitValidated(events: seq<Event>, pc: bv32, status: bv32)
    ensures var s := Run(INITIAL, events);
            s.running ==>
              (s.active < 2 &&
               var found := Probe(s.slots[s.active].table, pc, status);
               (found.Some? && CookieOf(s, s.slots[s.active], found.value) == Some(s.cookie) ==>
                  Vouched(s, found.value, pc, status)))
  {
    hide Prepare, Resolve, Primary, Secondary, Alternate;
    RunValid(INITIAL, events);
    var s := Run(INITIAL, events);
    if s.running {
      var slot := s.slots[s.active];
      var found := Probe(slot.table, pc, status);
      assert SlotValid(s.entries, slot);
      if found.Some? && CookieOf(s, slot, found.value) == Some(s.cookie) && found.value.validation.Cell? {
        var v := slot.views[found.value.validation.index];
        assert CellValid(s, s.active, v);
        assert (v.domain, s.generations[v.domain], v.region) in s.validated;
      }
    }
  }

  /** A resolution under a masked status leaves its entry where the dispatcher's
      next probe of the same key finds it. */
  lemma ResolvedIsFound(s: State, pc: bv32, status: bv32, lease: Option<Lease>, id: nat)
    requires Valid(s) && s.running && status & STATUS_MASK == status
    requires Resolve(s, pc, status, lease, id).slots[s.active] != s.slots[s.active]
    ensures id in s.entries
    ensures var t := Resolve(s, pc, status, lease, id);
            var found := Probe(t.slots[s.active].table, pc, status);
            found.Some? && found.value.owner == id && CookieOf(t, t.slots[s.active], found.value) == Some(t.cookie)
  {
    hide Store, Probe, EncodeStatus, DecodeIt, Resolve, ValidateView, Unique, Region.Contains;
    Resolved(s, pc, status, lease, id);
    var e, l, slot := s.entries[id], lease.value, s.slots[s.active];
    StatusReencodes(status);
    assert SlotValid(s.entries, slot);
    if e.multiView {
      ProbeAfterStore(slot.table, DescriptorOf(id, e, Owned(id)));
    } else {
      RegionStore(s, slot, id, l, pc, status);
      var (out, cell) := ValidateView(slot, s.cookie, l.domain, l.region);
      ProbeAfterStore(out.table, DescriptorOf(id, e, Cell(cell.value)));
    }
  }

  lemma OneGone(entries: map<Place, Descriptor>, gone: set<Place>, rest: set<Place>, p: Place)
    requires p in rest
    ensures entries - (gone - (rest - {p})) ==
            if p in gone then (entries - (gone - rest)) - {p} else entries - (gone - rest)
  {
    if p in gone {
      assert gone - (rest - {p}) == (gone - rest) + {p};
    } else {
      assert gone - (rest - {p}) == gone - rest;
    }
  }

  /** One continuation table as the native scope updates it. */
  class LinkTable {
    var views: seq<View>
    var entries: map<Place, Descriptor>
    var replacementMask: set<bv32>

    constructor ()
      ensures views == FRESH_VIEWS && Contents() == Table(map[], {})
    {
      views, entries, replacementMask := FRESH_VIEWS, map[], {};
    }

    function Contents(): Table
      reads this
    {
      Table(entries, replacementMask)
    }

    /** The place for a key: where it is, an empty way, or the way the set's
        replacement bit points at, which then turns over. */
    method SelectPlace(pc: bv32, status: bv32) returns (place: Place)
      modifies `replacementMask
      ensures (place, replacementMask) == Select(old(Contents()), pc, status)
    {
      hide Primary, Secondary;
      var ways := [First, Second];
      var way: nat := 0;
      while way < 2
        invariant way <= 2
        invariant forall w: nat :: w < way ==> !Keyed(Contents(), Home(pc, status, ways[w]), pc, status)
      {
        place := Home(pc, status, ways[way]);
        if place in entries && entries[place].pc == pc && entries[place].status == status {
          assert ways[0] == First;
          return;
        }
        way := way + 1;
      }
      assert !Keyed(Contents(), Home(pc, status, ways[0]), pc, status) && !Keyed(Contents(), Home(pc, status, ways[1]), pc, status);
      way := 0;
      while way < 2
        invariant way <= 2
        invariant forall w: nat :: w < way ==> Home(pc, status, ways[w]) in entries
      {
        place := Home(pc, status, ways[way]);
        if place !in entries {
          assert way == 1 ==> Home(pc, status, ways[0]) in entries;
          return;
        }
        way := way + 1;
      }
      assert Home(pc, status, ways[0]) in entries && Home(pc, status, ways[1]) in entries;
      var first := Primary(pc, status);
      if first in replacementMask {
        replacementMask := replacementMask - {first};
        place := Home(pc, status, Second);
      } else {
        replacementMask := replacementMask + {first};
        place := Home(pc, status, First);
      }
    }

    /** Renew the cell of this region, or give it an idle one after clearing the
        descriptors that named that cell. */
    method Validate(cookie: nat, domain: nat, region: Region) returns (cell: Option<nat>)
      modifies `views, `entries
      ensures forall slot: Slot :: slot.views == old(views) && slot.table == old(Contents()) ==>
                ValidateView(slot, cookie, domain, region) == (slot.(views := views, table := Contents()), cell)
    {
      var i: nat := 0;
      while i < |views|
        invariant i <= |views| && MatchingCell(views, domain, region, 0) == MatchingCell(views, domain, region, i)
      {
        if views[i].domain == domain && views[i].region == region {
          views := views[i := views[i].(cookie := cookie)];
          return Some(i);
        }
        i := i + 1;
      }
      i := 0;
      while i < |views|
        invariant i <= |views| && IdleCell(views, cookie, 0) == IdleCell(views, cookie, i)
      {
        if views[i].cookie != cookie {
          Discard(i);
          views := views[i := View(domain, region, cookie)];
          return Some(i);
        }
        i := i + 1;
      }
      return None;
    }

    method Discard(cell: nat)
      modifies `entries
      ensures Contents() == Clear(old(Contents()), set p | p in old(entries) && Names(old(entries)[p], cell))
    {
      var rest := entries.Keys;
      ghost var gone := set p | p in entries && Names(entries[p], cell);
      while rest != {}
        invariant rest <= old(entries).Keys
        invariant entries == old(entries) - (gone - rest)
        decreases |rest|
      {
        var p :| p in rest;

        OneGone(old(entries), gone, rest, p);
        if Names(entries[p], cell) {
          entries := entries - {p};
        }
        rest := rest - {p};
      }
      assert gone - rest == gone;
    }
  }
}
