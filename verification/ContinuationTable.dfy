/** The two-way continuation table and the status word that keys it. */
module ContinuationTable {
  import opened Wrappers

  /** Bits 26:25 and 15:10 hold the IT state, bit 9 the endianness, bit 5 Thumb. */
  const STATUS_MASK: bv32 := 0x0600fe20

  function Primary(pc: bv32, status: bv32): bv32 {
    ((pc >> 1) ^ (pc >> 6) ^ (status >> 5) ^ (status >> 10) ^ (status >> 25)) & 31
  }

  function Secondary(pc: bv32, status: bv32): bv32 {
    ((pc >> 1) ^ (pc >> 11) ^ (status >> 5) ^ (status >> 10) ^ (status >> 25)) & 31
  }

  /** The dispatcher turns the masked primary index into the secondary one by
      exchanging one address group for the other. */
  function Alternate(primary: bv32, pc: bv32): bv32 {
    (primary ^ (pc >> 6) ^ (pc >> 11)) & 31
  }

  lemma AlternateIsSecondary(pc: bv32, status: bv32)
    ensures Alternate(Primary(pc, status), pc) == Secondary(pc, status)
    ensures Primary(pc, status) < 32 && Secondary(pc, status) < 32
  {
  }

  function EncodeStatus(endian: bool, thumb: bool, it: bv32): bv32 {
    (if endian then 0x200 else 0) | (if thumb then 0x20 else 0) | ((it & 3) << 25) | ((it & 0xfc) << 8)
  }

  function DecodeIt(status: bv32): bv32 {
    ((status >> 25) & 3) | ((status >> 8) & 0xfc)
  }

  /** Decoding the status a key produced gives back its three fields. */
  lemma StatusRoundTrip(endian: bool, thumb: bool, it: bv32)
    requires it & 0xff == it
    ensures var s := EncodeStatus(endian, thumb, it);
            (s & 0x200 != 0) == endian && (s & 0x20 != 0) == thumb && DecodeIt(s) == it && s & STATUS_MASK == s
  {
  }

  /** Encoding the fields of any status word gives back its masked bits. */
  lemma StatusReencodes(status: bv32)
    ensures EncodeStatus(status & 0x200 != 0, status & 0x20 != 0, DecodeIt(status)) == status & STATUS_MASK
  {
  }

  datatype Way = First | Second

  /** A place in the table: its way and its set. */
  datatype Place = Place(way: Way, set': bv32)

  function Home(pc: bv32, status: bv32, way: Way): Place {
    if way == First then Place(First, Primary(pc, status)) else Place(Second, Secondary(pc, status))
  }

  datatype Validation = Cell(index: nat) | Owned(owner: nat)

  datatype Descriptor = Descriptor(
    pc: bv32, status: bv32, maximumTicks: nat, closed: bool, endsWithStop: bool, owner: nat, validation: Validation)

  /** The replacement mask is the set of primary sets whose bit is on. */
  datatype Table = Table(entries: map<Place, Descriptor>, replacementMask: set<bv32>)

  predicate Keyed(t: Table, p: Place, pc: bv32, status: bv32) {
    p in t.entries && t.entries[p].pc == pc && t.entries[p].status == status
  }

  predicate SameKey(d: Descriptor, e: Descriptor) {
    d.pc == e.pc && d.status == e.status
  }

  /** No key twice, and each key in one of its own two places. */
  ghost predicate Unique(t: Table) {
    && (forall p: Place :: p in t.entries ==> p == Home(t.entries[p].pc, t.entries[p].status, p.way))
    && (forall p: Place, q: Place :: p in t.entries && q in t.entries && SameKey(t.entries[p], t.entries[q]) ==> p == q)
  }

  /** The place a key is stored at, and the mask afterwards. */
  function Select(t: Table, pc: bv32, status: bv32): (Place, set<bv32>) {
    var a, b := Home(pc, status, First), Home(pc, status, Second);
    if Keyed(t, a, pc, status) then (a, t.replacementMask)
    else if Keyed(t, b, pc, status) then (b, t.replacementMask)
    else if a !in t.entries then (a, t.replacementMask)
    else if b !in t.entries then (b, t.replacementMask)
    else
      var first := Primary(pc, status);
      if first in t.replacementMask then (b, t.replacementMask - {first}) else (a, t.replacementMask + {first})
  }

  function Store(t: Table, d: Descriptor): Table {
    var (place, mask) := Select(t, d.pc, d.status);
    Table(t.entries[place := d], mask)
  }

  function Clear(t: Table, gone: set<Place>): Table {
    t.(entries := t.entries - gone)
  }

  /** What the dispatcher finds: primary set first, then the alternate set. */
  function Probe(t: Table, pc: bv32, status: bv32): Option<Descriptor> {
    var primary := Primary(pc, status);
    var a, b := Place(First, primary), Place(Second, Alternate(primary, pc));
    if Keyed(t, a, pc, status) then Some(t.entries[a])
    else if Keyed(t, b, pc, status) then Some(t.entries[b])
    else None
  }

  /** A key is stored at one of its own places, and if present, where it is. */
  lemma SelectHome(t: Table, pc: bv32, status: bv32)
    requires Unique(t)
    ensures var place := Select(t, pc, status).0;
            place == Home(pc, status, place.way) && forall p: Place :: Keyed(t, p, pc, status) ==> p == place
  {
    hide Primary, Secondary;
  }

  lemma StoreUnique(t: Table, d: Descriptor)
    requires Unique(t)
    ensures Unique(Store(t, d))
  {
    SelectHome(t, d.pc, d.status);
    hide Home, Select;
    var place, u := Select(t, d.pc, d.status).0, Store(t, d);
    forall p: Place, q: Place | p in u.entries && q in u.entries && SameKey(u.entries[p], u.entries[q])
      ensures p == q
    {
      assert p == place && q != place ==> Keyed(t, q, d.pc, d.status);
      assert q == place && p != place ==> Keyed(t, p, d.pc, d.status);
    }
  }

  lemma ClearUnique(t: Table, gone: set<Place>)
    requires Unique(t)
    ensures Unique(Clear(t, gone))
  {
  }

  /** The dispatcher finds exactly what is stored under a key, wherever it is. */
  lemma ProbeExact(t: Table, pc: bv32, status: bv32)
    requires Unique(t)
    ensures Probe(t, pc, status).Some? <==>
              exists p: Place :: Keyed(t, p, pc, status)
    ensures forall p: Place :: Keyed(t, p, pc, status) ==> Probe(t, pc, status) == Some(t.entries[p])
  {
    AlternateIsSecondary(pc, status);
    hide Primary, Secondary, Alternate;
  }

  /** The last descriptor stored for a key is found. */
  lemma ProbeAfterStore(t: Table, d: Descriptor)
    requires Unique(t)
    ensures Probe(Store(t, d), d.pc, d.status) == Some(d)
  {
    hide Probe, Select, Unique;
    StoreUnique(t, d);
    ProbeExact(Store(t, d), d.pc, d.status);
    assert Keyed(Store(t, d), Select(t, d.pc, d.status).0, d.pc, d.status);
  }

  /** Every other key keeps its answer unless its own place was taken over. */
  lemma ProbeOthersAfterStore(t: Table, d: Descriptor, pc: bv32, status: bv32)
    requires Unique(t) && (pc != d.pc || status != d.status)
    ensures Probe(Store(t, d), pc, status) ==
            if Keyed(t, Select(t, d.pc, d.status).0, pc, status) then None else Probe(t, pc, status)
  {
    hide Probe, Select, Unique;
    StoreUnique(t, d);
    var place, u := Select(t, d.pc, d.status).0, Store(t, d);
    ProbeExact(u, pc, status);
    ProbeExact(t, pc, status);
    assert !Keyed(u, place, pc, status);
    forall p: Place | p != place
      ensures Keyed(u, p, pc, status) <==> Keyed(t, p, pc, status)
    {
    }
    hide Keyed, Store;
    if Keyed(t, place, pc, status) {
      OnePlace(t, place, pc, status);
    }
  }

  lemma OnePlace(t: Table, place: Place, pc: bv32, status: bv32)
    requires Unique(t) && Keyed(t, place, pc, status)
    ensures forall p: Place :: Keyed(t, p, pc, status) ==> p == place
  {
  }

  /** Clearing a set of places only forgets the keys stored there. */
  lemma ProbeAfterClear(t: Table, gone: set<Place>, pc: bv32, status: bv32)
    requires Unique(t)
    ensures Probe(Clear(t, gone), pc, status) ==
            if exists p: Place :: p in gone && Keyed(t, p, pc, status) then None else Probe(t, pc, status)
  {
    AlternateIsSecondary(pc, status);
    hide Primary, Secondary, Alternate;
  }
}
