/** Guest extension registers in host vector registers, under a scalar plan.

Each guest word lives in a planned resident or in its packed bank. Whatever a
cycle writes, reads see the last value, and the flush before every exit leaves
each architectural word equal to its last write.
 */
module VectorRegisters {
  import opened Words
  import opened ScalarRegisterPlan

  /** One host vector register as four 32-bit lanes. */
  type Lanes = l: seq<Word> | |l| == 4 witness [0, 0, 0, 0]

  datatype State = State(host: seq<Lanes>, memory: seq<Word>) {
    predicate Valid() {
      |host| == 32 && |memory| == WORDS
    }
  }

  /** The compiled frame: residents, banks loaded on entry, and banks written. */
  datatype Frame = Frame(uses: Uses, entries: seq<Entry>, units: nat, used: set<nat>, dirty: set<nat>) {
    predicate Valid() {
      && uses.Valid() && units <= 2 && Packed(uses, entries) && Placed(uses, entries, units)
      && dirty <= used && forall bank <- used :: bank < BANKS && BankOccupied(uses, bank)
    }

    function Slots(): nat
      requires units <= 2
    {
      ConstantSlots(|entries|, units)
    }
  }

  /** Position of the entry for a word of the given width, or the count. */
  function FindEntry(entries: seq<Entry>, word: nat, wide: bool): (i: nat)
    ensures i <= |entries|
    ensures i < |entries| ==> entries[i].word == word && entries[i].wide == wide
    ensures i == |entries| ==> !Holds(entries, word, wide)
  {
    if entries == [] then 0
    else if entries[0].word == word && entries[0].wide == wide then 0
    else
      var i := FindEntry(entries[1..], word, wide);
      assert forall j :: 0 < j < |entries| ==> entries[j] == entries[1..][j - 1];
      i + 1
  }

  /** Where a word lives: a resident's lane or its lane of the packed bank. */
  datatype Location = Location(host: nat, lane: nat)

  function Locate(f: Frame, w: Number): Location {
    var narrow, wide := FindEntry(f.entries, w, false), FindEntry(f.entries, w / 2 * 2, true);
    if narrow < |f.entries| then Location(f.entries[narrow].host, 0)
    else if wide < |f.entries| then Location(f.entries[wide].host, w % 2)
    else Location(16 + w / 4, w % 4)
  }

  predicate Resident(f: Frame, w: Number) {
    FindEntry(f.entries, w, false) < |f.entries| || FindEntry(f.entries, w / 2 * 2, true) < |f.entries|
  }

  /** The entry that holds a resident word. */
  function EntryOf(f: Frame, w: Number): Entry
    requires Resident(f, w)
  {
    var narrow := FindEntry(f.entries, w, false);
    if narrow < |f.entries| then f.entries[narrow] else f.entries[FindEntry(f.entries, w / 2 * 2, true)]
  }

  /** Words some host register holds during the cycle. */
  predicate Live(f: Frame, w: Number) {
    Resident(f, w) || w / 4 in f.used
  }

  function ValueAt(s: State, l: Location): Word {
    if l.host < |s.host| && l.lane < 4 then s.host[l.host][l.lane] else 0
  }

  lemma ResidentEntry(f: Frame, w: Number)
    requires f.Valid() && Resident(f, w)
    ensures var e := EntryOf(f, w);
            e in f.entries && e.Covers(w) && Locate(f, w) == Location(e.host, if e.wide then w % 2 else 0)
    ensures w !in f.uses.blocked
    ensures f.uses.singles[w].written || f.uses.doubles[w / 2].written ==> EntryOf(f, w).written
  {
    var e := EntryOf(f, w);
    var i :| 0 <= i < |f.entries| && f.entries[i] == e;
    assert EntryValid(f.uses, f.entries[i]);
  }

  lemma HostRange(f: Frame, e: Entry)
    requires f.Valid() && e in f.entries
    ensures 3 <= e.host < 3 + f.Slots() || (16 <= e.host < 32 && e.host - 16 !in f.used)
    ensures f.Slots() + f.units <= CONSTANT_CAPACITY
  {
    var i :| 0 <= i < |f.entries| && f.entries[i] == e;
    assert HostValid(f.uses, f.entries[i].host, i, f.units);
  }

  /** No two live words share a lane, and no resident sits in a bank in use. */
  lemma LocationsDistinct(f: Frame, w: Number, v: Number)
    requires f.Valid() && Live(f, w) && Live(f, v) && w != v
    ensures Locate(f, w) != Locate(f, v)
    ensures Resident(f, w) != Resident(f, v) ==> Locate(f, w).host != Locate(f, v).host
  {
    hide FindEntry, Packed, Placed, BankOccupied;
    if Resident(f, w) {
      ResidentEntry(f, w);
      HostRange(f, EntryOf(f, w));
    }
    if Resident(f, v) {
      ResidentEntry(f, v);
      HostRange(f, EntryOf(f, v));
    }
    if Resident(f, w) && Resident(f, v) {
      ResidentsApart(f, EntryOf(f, w), EntryOf(f, v), w, v);
    }
  }

  lemma ResidentsApart(f: Frame, a: Entry, b: Entry, w: Number, v: Number)
    requires f.Valid() && a in f.entries && b in f.entries && a.Covers(w) && b.Covers(v) && w != v
    ensures a.host != b.host || (a == b && a.wide && w / 2 == v / 2)
  {
    var i :| 0 <= i < |f.entries| && f.entries[i] == a;
    var j :| 0 <= j < |f.entries| && f.entries[j] == b;
    assert EntryValid(f.uses, f.entries[i]);
    if i < j {
      assert f.entries[i].host != f.entries[j].host;
    } else if j < i {
      assert f.entries[j].host != f.entries[i].host;
    }
  }

  function SetLane(host: seq<Lanes>, h: nat, lane: nat, v: Word): seq<Lanes>
    requires |host| == 32 && h < 32 && lane < 4
  {
    host[h := host[h][lane := v]]
  }

  /** write_s: a scalar move into a resident, or an insertion into a lane. */
  function WriteSingle(f: Frame, s: State, w: Number, v: Word): (t: State)
    requires f.Valid() && s.Valid()
    ensures t.Valid()
  {
    HostsInRange(f);
    var narrow, wide := FindEntry(f.entries, w, false), FindEntry(f.entries, w / 2 * 2, true);
    if narrow < |f.entries| then s.(host := s.host[f.entries[narrow].host := [v, 0, 0, 0]])
    else if wide < |f.entries| then s.(host := SetLane(s.host, f.entries[wide].host, w % 2, v))
    else s.(host := SetLane(s.host, 16 + w / 4, w % 4, v))
  }

  /** write_d: a double move, a scalar move and a duplication, or an insertion. */
  function WriteDouble(f: Frame, s: State, d: nat, low: Word, high: Word): (t: State)
    requires f.Valid() && s.Valid() && d < 32
    ensures t.Valid()
  {
    HostsInRange(f);
    var wide := FindEntry(f.entries, 2 * d, true);
    var lo, hi := FindEntry(f.entries, 2 * d, false), FindEntry(f.entries, 2 * d + 1, false);
    if wide < |f.entries| then s.(host := s.host[f.entries[wide].host := [low, high, 0, 0]])
    else if lo < |f.entries| && hi < |f.entries| then
      s.(host := s.host[f.entries[lo].host := [low, 0, 0, 0]][f.entries[hi].host := [high, high, high, high]])
    else
      s.(host := SetLane(SetLane(s.host, 16 + d / 2, 2 * (d % 2), low), 16 + d / 2, 2 * (d % 2) + 1, high))
  }

  lemma HostsInRange(f: Frame)
    requires f.Valid()
    ensures forall i :: 0 <= i < |f.entries| ==> f.entries[i].host < 32
  {
    forall i | 0 <= i < |f.entries|
      ensures f.entries[i].host < 32
    {
      assert HostValid(f.uses, f.entries[i].host, i, f.units);
    }
  }

  /** A write puts the value where its word lives, and changes no other lane except
      unused lanes of its own narrow resident. */
  lemma SingleChanges(f: Frame, s: State, w: Number, v: Word, l: Location)
    requires f.Valid() && s.Valid() && l.host < 32 && l.lane < 4
    ensures l == Locate(f, w) ==> ValueAt(WriteSingle(f, s, w, v), l) == v
    ensures l != Locate(f, w) && (l.host != Locate(f, w).host || !Resident(f, w) || EntryOf(f, w).wide) ==>
              ValueAt(WriteSingle(f, s, w, v), l) == ValueAt(s, l)
    ensures WriteSingle(f, s, w, v).memory == s.memory
  {
    hide Packed, Placed, FindEntry, BankOccupied;
    HostsInRange(f);
  }

  /** The location of another live word keeps its value. */
  lemma SingleKeeps(f: Frame, s: State, w: Number, v: Word, x: Number)
    requires f.Valid() && s.Valid() && Live(f, w) && Live(f, x)
    ensures ValueAt(WriteSingle(f, s, w, v), Locate(f, x)) == if x == w then v else ValueAt(s, Locate(f, x))
  {
    hide Packed, Placed, FindEntry, BankOccupied, WriteSingle, ValueAt;
    LocationBounds(f, x);
    SingleChanges(f, s, w, v, Locate(f, x));
    if x != w {
      LocationsDistinct(f, w, x);
      if Resident(f, w) && Resident(f, x) && Locate(f, x).host == Locate(f, w).host {
        ResidentEntry(f, w);
        ResidentEntry(f, x);
        ResidentsApart(f, EntryOf(f, w), EntryOf(f, x), w, x);
      }
    }
  }

  lemma LocationBounds(f: Frame, x: Number)
    requires f.Valid() && Live(f, x)
    ensures Locate(f, x).host < 32 && Locate(f, x).lane < 4
  {
    hide Packed, Placed, FindEntry, BankOccupied;
    if Resident(f, x) {
      ResidentEntry(f, x);
      HostRange(f, EntryOf(f, x));
    }
  }

  /** The bank lane behind a word, whether or not the word lives there. */
  function Shadow(w: Number): Location {
    Location(16 + w / 4, w % 4)
  }

  /** A bank in use keeps the lanes behind resident words. */
  lemma SingleShadow(f: Frame, s: State, w: Number, v: Word, x: Number)
    requires f.Valid() && s.Valid() && Live(f, w) && Resident(f, x) && x / 4 in f.used
    ensures ValueAt(WriteSingle(f, s, w, v), Shadow(x)) == ValueAt(s, Shadow(x))
  {
    hide Packed, Placed, FindEntry, BankOccupied, WriteSingle, ValueAt;
    SingleChanges(f, s, w, v, Shadow(x));
    if Resident(f, w) {
      ResidentEntry(f, w);
      HostRange(f, EntryOf(f, w));
    }
  }

  lemma PackedPair(f: Frame, d: nat)
    requires f.Valid() && d < 32 && f.uses.doubles[d].present
    ensures PairHeld(f.entries, d) && forall i, j :: 0 <= i < j < |f.entries| ==> Disjoint(f.entries[i], f.entries[j])
  {
    hide BankOccupied, Placed, EntryValid, PairHeld, Disjoint;
  }

  /** A pair used as a double: both words resident together or both in the bank. */
  lemma PairResident(f: Frame, d: nat)
    requires f.Valid() && d < 32 && f.uses.doubles[d].present
    ensures Resident(f, 2 * d) <==> Resident(f, 2 * d + 1)
    ensures FindEntry(f.entries, 2 * d, false) < |f.entries| <==> FindEntry(f.entries, 2 * d + 1, false) < |f.entries|
    ensures FindEntry(f.entries, 2 * d, true) < |f.entries| ==> FindEntry(f.entries, 2 * d, false) == |f.entries|
  {
    hide Packed, Placed, BankOccupied, Frame.Valid, FindEntry;
    PackedPair(f, d);
    var wide, narrow := FindEntry(f.entries, 2 * d, true), FindEntry(f.entries, 2 * d, false);
    var word: Number := 2 * d;
    if wide < |f.entries| && narrow < |f.entries| {
      SameEntry(f, wide, narrow, word);
    }
  }

  /** A double write puts both halves where they live, and changes no other lane
      except unused lanes of its own residents. */
  lemma DoubleChanges(f: Frame, s: State, d: nat, low: Word, high: Word, l: Location)
    requires f.Valid() && s.Valid() && d < 32 && f.uses.doubles[d].present && l.host < 32 && l.lane < 4
    ensures var a: Number, b: Number := 2 * d, 2 * d + 1;
            var after := ValueAt(WriteDouble(f, s, d, low, high), l);
            && (l == Locate(f, a) ==> after == low) && (l == Locate(f, b) ==> after == high)
            && (l != Locate(f, a) && l != Locate(f, b) &&
                (!Resident(f, a) || (l.host != Locate(f, a).host && l.host != Locate(f, b).host)) ==>
                  after == ValueAt(s, l))
    ensures WriteDouble(f, s, d, low, high).memory == s.memory
  {
    hide Packed, Placed, FindEntry, BankOccupied;
    PairResident(f, d);
    HostsInRange(f);
    var a: Number, b: Number := 2 * d, 2 * d + 1;
    PairHosts(f, d);
    var wide := FindEntry(f.entries, 2 * d, true);
    if wide < |f.entries| {
      DoubleWide(f, s, d, low, high, l);
    } else if Resident(f, a) {
      DoubleSplit(f, s, d, low, high, l);
    } else {
      DoublePacked(f, s, d, low, high, l);
    }
  }

  lemma DoubleWide(f: Frame, s: State, d: nat, low: Word, high: Word, l: Location)
    requires f.Valid() && s.Valid() && d < 32 && l.host < 32 && l.lane < 4
    requires var wide := FindEntry(f.entries, 2 * d, true);
             wide < |f.entries| && FindEntry(f.entries, 2 * d, false) == |f.entries| == FindEntry(f.entries, 2 * d + 1, false)
    ensures var h := f.entries[FindEntry(f.entries, 2 * d, true)].host;
            && Locate(f, 2 * d) == Location(h, 0) && Locate(f, 2 * d + 1) == Location(h, 1)
            && WriteDouble(f, s, d, low, high).memory == s.memory
            && ValueAt(WriteDouble(f, s, d, low, high), l) ==
               if l.host != h then ValueAt(s, l) else [low, high, 0, 0][l.lane]
  {
    hide Packed, Placed, BankOccupied;
    HostsInRange(f);
  }

  lemma DoubleSplit(f: Frame, s: State, d: nat, low: Word, high: Word, l: Location)
    requires f.Valid() && s.Valid() && d < 32 && l.host < 32 && l.lane < 4
    requires var lo, hi := FindEntry(f.entries, 2 * d, false), FindEntry(f.entries, 2 * d + 1, false);
             FindEntry(f.entries, 2 * d, true) == |f.entries| && lo < |f.entries| && hi < |f.entries| &&
             f.entries[lo].host != f.entries[hi].host
    ensures var lo, hi := FindEntry(f.entries, 2 * d, false), FindEntry(f.entries, 2 * d + 1, false);
            && Locate(f, 2 * d) == Location(f.entries[lo].host, 0) && Locate(f, 2 * d + 1) == Location(f.entries[hi].host, 0)
            && WriteDouble(f, s, d, low, high).memory == s.memory
            && ValueAt(WriteDouble(f, s, d, low, high), l) ==
               if l.host == f.entries[lo].host then [low, 0, 0, 0][l.lane]
               else if l.host == f.entries[hi].host then high else ValueAt(s, l)
  {
    hide Packed, Placed, BankOccupied;
    HostsInRange(f);
  }

  lemma DoublePacked(f: Frame, s: State, d: nat, low: Word, high: Word, l: Location)
    requires f.Valid() && s.Valid() && d < 32 && l.host < 32 && l.lane < 4
    requires !Resident(f, 2 * d) && !Resident(f, 2 * d + 1)
    ensures Locate(f, 2 * d) == Location(16 + d / 2, 2 * (d % 2)) && Locate(f, 2 * d + 1) == Location(16 + d / 2, 2 * (d % 2) + 1)
    ensures WriteDouble(f, s, d, low, high).memory == s.memory
    ensures ValueAt(WriteDouble(f, s, d, low, high), l) ==
            if l == Locate(f, 2 * d) then low else if l == Locate(f, 2 * d + 1) then high else ValueAt(s, l)
  {
    hide Packed, Placed, BankOccupied;
    var a: Number, b: Number := 2 * d, 2 * d + 1;
    assert a / 4 == d / 2 && b / 4 == d / 2 && a % 4 == 2 * (d % 2) && b % 4 == 2 * (d % 2) + 1;
  }

  /** Split halves sit in different hosts; no narrow half beside a whole pair. */
  lemma PairHosts(f: Frame, d: nat)
    requires f.Valid() && d < 32 && f.uses.doubles[d].present
    ensures var wide, lo, hi := FindEntry(f.entries, 2 * d, true), FindEntry(f.entries, 2 * d, false), FindEntry(f.entries, 2 * d + 1, false);
            && (wide < |f.entries| ==> lo == |f.entries| && hi == |f.entries|)
            && (lo < |f.entries| && hi < |f.entries| ==> f.entries[lo].host != f.entries[hi].host)
  {
    hide Packed, BankOccupied;
    PairResident(f, d);
    var lo, hi := FindEntry(f.entries, 2 * d, false), FindEntry(f.entries, 2 * d + 1, false);
    if lo < |f.entries| && hi < |f.entries| {
      if lo < hi {
        assert f.entries[lo].host != f.entries[hi].host;
      } else {
        assert f.entries[hi].host != f.entries[lo].host;
      }
    }
  }

  /** Words of different pairs never share a resident. */
  lemma HostsApart(f: Frame, w: Number, x: Number)
    requires f.Valid() && Live(f, w) && Live(f, x) && w / 2 != x / 2 && Resident(f, w)
    ensures Locate(f, w).host != Locate(f, x).host
  {
    hide Packed, Placed, FindEntry, BankOccupied;
    LocationsDistinct(f, w, x);
    if Resident(f, x) {
      ResidentEntry(f, w);
      ResidentEntry(f, x);
      ResidentsApart(f, EntryOf(f, w), EntryOf(f, x), w, x);
    }
  }

  lemma ResidentOutside(f: Frame, w: Number, x: Number)
    requires f.Valid() && Resident(f, w) && x / 4 in f.used
    ensures Locate(f, w).host != Shadow(x).host
  {
    hide Packed, Placed, FindEntry, BankOccupied;
    ResidentEntry(f, w);
    HostRange(f, EntryOf(f, w));
  }

  /** Writing a double is, to every live word, writing its two halves. */
  lemma DoubleKeeps(f: Frame, s: State, d: nat, low: Word, high: Word, x: Number)
    requires f.Valid() && s.Valid() && d < 32 && f.uses.doubles[d].present
    requires Live(f, 2 * d) && Live(f, 2 * d + 1) && Live(f, x)
    ensures ValueAt(WriteDouble(f, s, d, low, high), Locate(f, x)) ==
            if x == 2 * d then low else if x == 2 * d + 1 then high else ValueAt(s, Locate(f, x))
    ensures WriteDouble(f, s, d, low, high).memory == s.memory
  {
    hide WriteDouble, ValueAt, Packed, Placed, FindEntry, BankOccupied, Locate, Resident;
    var a: Number, b: Number := 2 * d, 2 * d + 1;
    LocationBounds(f, x);
    PairResident(f, d);
    DoubleChanges(f, s, d, low, high, Locate(f, x));
    if x != a && x != b {
      LocationsDistinct(f, a, x);
      LocationsDistinct(f, b, x);
      if Resident(f, a) {
        HostsApart(f, a, x);
        HostsApart(f, b, x);
      }
    }
  }

  lemma DoubleShadow(f: Frame, s: State, d: nat, low: Word, high: Word, x: Number)
    requires f.Valid() && s.Valid() && d < 32 && f.uses.doubles[d].present
    requires Live(f, 2 * d) && Live(f, 2 * d + 1) && Resident(f, x) && x / 4 in f.used
    ensures ValueAt(WriteDouble(f, s, d, low, high), Shadow(x)) == ValueAt(s, Shadow(x))
  {
    hide WriteDouble, ValueAt, Packed, Placed, FindEntry, BankOccupied, Resident;
    var a: Number, b: Number := 2 * d, 2 * d + 1;
    PairResident(f, d);
    DoubleChanges(f, s, d, low, high, Shadow(x));
    if Resident(f, a) {
      ResidentOutside(f, a, x);
      ResidentOutside(f, b, x);
    } else {
      PackedLocate(f, a);
      PackedLocate(f, b);
    }
  }

  lemma PackedLocate(f: Frame, w: Number)
    requires !Resident(f, w)
    ensures Locate(f, w) == Shadow(w)
  {
  }

  /** What a cycle does to vector state: scalar writes, bulk lane writes, the
      scratch and constant registers it overwrites on the way, and control polls,
      which flush, let the host overwrite every register, and restore. */
  datatype Op =
    | Single(word: Number, value: Word)
    | Double(d: nat, low: Word, high: Word)
    | BulkLane(word: Number, value: Word)
    | Scratch(host: nat, lanes: Lanes)
    | Poll(clobbered: seq<Lanes>)

  /** The operation was observed when the plan was made, and its bank is among the
      banks that the frame loads and stores. */
  predicate Legal(f: Frame, op: Op)
    requires f.Valid()
  {
    match op
    case Single(w, _) => f.uses.singles[w].written && (Resident(f, w) || w / 4 in f.dirty)
    case Double(d, _, _) => d < 32 && f.uses.doubles[d].written && (Resident(f, 2 * d) || d / 2 in f.dirty)
    case BulkLane(w, _) => w in f.uses.blocked && w / 4 in f.dirty
    case Scratch(h, _) => h < 3 || 3 + f.Slots() <= h < 8
    case Poll(clobbered) => |clobbered| == 32
  }

  function Apply(f: Frame, s: State, op: Op): (t: State)
    requires f.Valid() && s.Valid() && Legal(f, op)
    ensures t.Valid()
  {
    match op
    case Single(w, v) => WriteSingle(f, s, w, v)
    case Double(d, low, high) => WriteDouble(f, s, d, low, high)
    case BulkLane(w, v) => s.(host := SetLane(s.host, 16 + w / 4, w % 4, v))
    case Scratch(h, lanes) => s.(host := s.host[h := lanes])
    case Poll(clobbered) => Restored(f, State(clobbered, Flushed(f, s)))
  }

  /** The same operation on the architectural words. */
  function Plain(guest: seq<Word>, op: Op): (out: seq<Word>)
    requires |guest| == WORDS
    ensures |out| == WORDS
  {
    match op
    case Single(w, v) => guest[w := v]
    case Double(d, low, high) => if d < 32 then guest[2 * d := low][2 * d + 1 := high] else guest
    case BulkLane(w, v) => guest[w := v]
    case Scratch(_, _) => guest
    case Poll(_) => guest
  }

  /** The flush stores this word from a host register. */
  predicate MayWrite(f: Frame, w: Number) {
    if Resident(f, w) then EntryOf(f, w).written else w / 4 in f.dirty
  }

  ghost predicate WordHolds(f: Frame, s: State, guest: seq<Word>, w: Number)
    requires s.Valid() && |guest| == WORDS
  {
    && (Live(f, w) ==> ValueAt(s, Locate(f, w)) == guest[w])
    && (!MayWrite(f, w) ==> s.memory[w] == guest[w])
    && (Resident(f, w) && !EntryOf(f, w).written && w / 4 in f.used ==> ValueAt(s, Shadow(w)) == guest[w])
  }

  ghost predicate Tracks(f: Frame, s: State, guest: seq<Word>) {
    s.Valid() && |guest| == WORDS && forall w: Number :: WordHolds(f, s, guest, w)
  }

  lemma BulkIsSingle(f: Frame, s: State, w: Number, v: Word)
    requires f.Valid() && s.Valid() && w in f.uses.blocked
    ensures !Resident(f, w) && s.(host := SetLane(s.host, 16 + w / 4, w % 4, v)) == WriteSingle(f, s, w, v)
  {
    if Resident(f, w) {
      ResidentEntry(f, w);
    }
  }

  lemma SingleHolds(f: Frame, s: State, guest: seq<Word>, w: Number, v: Word, x: Number)
    requires f.Valid() && Tracks(f, s, guest) && Live(f, w) && MayWrite(f, w)
    ensures WordHolds(f, WriteSingle(f, s, w, v), guest[w := v], x)
  {
    hide Packed, Placed, FindEntry, BankOccupied, WriteSingle, ValueAt, Locate;
    assert WordHolds(f, s, guest, x);
    SingleMemory(f, s, w, v);
    if Live(f, x) {
      SingleKeeps(f, s, w, v, x);
    }
    if Resident(f, x) && x / 4 in f.used {
      SingleShadow(f, s, w, v, x);
    }
  }

  lemma SingleMemory(f: Frame, s: State, w: Number, v: Word)
    requires f.Valid() && s.Valid()
    ensures WriteSingle(f, s, w, v).memory == s.memory
  {
  }

  lemma DoubleHolds(f: Frame, s: State, guest: seq<Word>, d: nat, low: Word, high: Word, x: Number)
    requires f.Valid() && Tracks(f, s, guest) && d < 32 && f.uses.doubles[d].present
    requires Live(f, 2 * d) && Live(f, 2 * d + 1) && MayWrite(f, 2 * d) && MayWrite(f, 2 * d + 1)
    ensures WordHolds(f, WriteDouble(f, s, d, low, high), guest[2 * d := low][2 * d + 1 := high], x)
  {
    hide Packed, Placed, FindEntry, BankOccupied, WriteDouble, ValueAt, Locate;
    assert WordHolds(f, s, guest, x);
    DoubleChanges(f, s, d, low, high, Location(0, 0));
    if Live(f, x) {
      DoubleKeeps(f, s, d, low, high, x);
    }
    if Resident(f, x) && x / 4 in f.used {
      DoubleShadow(f, s, d, low, high, x);
    }
  }

  /** Scratch and constant registers hold no guest word. */
  lemma ScratchHolds(f: Frame, s: State, guest: seq<Word>, h: nat, lanes: Lanes, x: Number)
    requires f.Valid() && Tracks(f, s, guest) && Legal(f, Scratch(h, lanes))
    ensures WordHolds(f, s.(host := s.host[h := lanes]), guest, x)
  {
    hide Packed, Placed, FindEntry, BankOccupied;
    assert WordHolds(f, s, guest, x);
    if Resident(f, x) {
      ResidentEntry(f, x);
      HostRange(f, EntryOf(f, x));
    }
  }

  /** A written word is one the flush stores. */
  lemma WrittenMayWrite(f: Frame, w: Number)
    requires f.Valid() && (f.uses.singles[w].written || f.uses.doubles[w / 2].written)
    requires Resident(f, w) || w / 4 in f.dirty
    ensures MayWrite(f, w) && Live(f, w)
  {
    hide Packed, Placed, BankOccupied;
    if Resident(f, w) {
      ResidentEntry(f, w);
    }
  }

  lemma OpTracks(f: Frame, s: State, guest: seq<Word>, op: Op)
    requires f.Valid() && Tracks(f, s, guest) && Legal(f, op)
    ensures Tracks(f, Apply(f, s, op), Plain(guest, op))
  {
    hide Packed, Placed, FindEntry, BankOccupied, WriteDouble, WriteSingle, ValueAt, Locate, WordHolds, Resident;
    forall x: Number
      ensures WordHolds(f, Apply(f, s, op), Plain(guest, op), x)
    {
      match op
      case Single(w, v) =>
        WrittenMayWrite(f, w);
        SingleHolds(f, s, guest, w, v, x);
      case Double(d, low, high) =>
        var a: Number, b: Number := 2 * d, 2 * d + 1;
        PairResident(f, d);
        WrittenMayWrite(f, a);
        WrittenMayWrite(f, b);
        DoubleHolds(f, s, guest, d, low, high, x);
      case BulkLane(w, v) =>
        BulkIsSingle(f, s, w, v);
        SingleHolds(f, s, guest, w, v, x);
      case Scratch(h, lanes) => ScratchHolds(f, s, guest, h, lanes, x);
      case Poll(clobbered) => PollHolds(f, s, guest, clobbered, x);
    }
  }

  /** A poll in the middle of a run publishes every word and gets each one back. */
  lemma PollHolds(f: Frame, s: State, guest: seq<Word>, clobbered: seq<Lanes>, x: Number)
    requires f.Valid() && Tracks(f, s, guest) && |clobbered| == 32
    ensures Flushed(f, s) == guest
    ensures WordHolds(f, Restored(f, State(clobbered, Flushed(f, s))), guest, x)
  {
    hide Packed, Placed, BankOccupied, FindEntry, FlushedWord, Restored, WordHolds, Resident;
    forall w: Number
      ensures FlushedWord(f, s, w) == guest[w]
    {
      FlushExact(f, s, guest, w);
    }
    RestoredWord(f, State(clobbered, Flushed(f, s)), x);
  }

  function Run(f: Frame, s: State, ops: seq<Op>): (t: State)
    requires f.Valid() && s.Valid() && forall op <- ops :: Legal(f, op)
    ensures t.Valid()
    decreases |ops|
  {
    if ops == [] then s else Run(f, Apply(f, s, ops[0]), ops[1..])
  }

  function PlainRun(guest: seq<Word>, ops: seq<Op>): (out: seq<Word>)
    requires |guest| == WORDS
    ensures |out| == WORDS
    decreases |ops|
  {
    if ops == [] then guest else PlainRun(Plain(guest, ops[0]), ops[1..])
  }

  lemma {:induction false} RunTracks(f: Frame, s: State, guest: seq<Word>, ops: seq<Op>)
    requires f.Valid() && Tracks(f, s, guest) && forall op <- ops :: Legal(f, op)
    ensures Tracks(f, Run(f, s, ops), PlainRun(guest, ops))
    decreases |ops|
  {
    hide Legal, Apply, Plain, WordHolds, Packed, Placed, BankOccupied;
    if ops != [] {
      OpTracks(f, s, guest, ops[0]);
      RunTracks(f, Apply(f, s, ops[0]), Plain(guest, ops[0]), ops[1..]);
    }
  }

  /** The word a flush leaves in memory: the packed bank first, then residents that
      were written override their own words. */
  function FlushedWord(f: Frame, s: State, w: Number): Word
    requires s.Valid()
  {
    if Resident(f, w) && EntryOf(f, w).written then ValueAt(s, Locate(f, w))
    else if w / 4 in f.dirty then ValueAt(s, Shadow(w))
    else s.memory[w]
  }

  /** Memory after a flush. */
  function Flushed(f: Frame, s: State): (memory: seq<Word>)
    requires s.Valid()
    ensures |memory| == WORDS
  {
    seq(WORDS, w requires 0 <= w < WORDS && s.Valid() => FlushedWord(f, s, w))
  }

  lemma FlushExact(f: Frame, s: State, guest: seq<Word>, w: Number)
    requires f.Valid() && Tracks(f, s, guest)
    ensures FlushedWord(f, s, w) == guest[w]
  {
    hide Packed, Placed, BankOccupied, FindEntry, ValueAt;
    assert WordHolds(f, s, guest, w);
    if !Resident(f, w) {
      PackedLocate(f, w);
    }
  }

  /** What the entry code loads into host register h. */
  function LoadedHost(f: Frame, memory: seq<Word>, h: nat, before: Lanes): Lanes
    requires f.Valid() && |memory| == WORDS
  {
    var i := HostEntry(f.entries, h);
    if i < |f.entries| then
      EntryInRange(f, i);
      var e := f.entries[i];
      if e.wide then [memory[e.word], memory[e.word + 1], 0, 0] else [memory[e.word], 0, 0, 0]
    else if h >= 16 && h - 16 in f.used && h < 32 then memory[4 * (h - 16)..4 * (h - 16) + 4]
    else before
  }

  function HostEntry(entries: seq<Entry>, h: nat): (i: nat)
    ensures i <= |entries| && (i < |entries| ==> entries[i].host == h)
    ensures forall k :: 0 <= k < i ==> entries[k].host != h
  {
    if entries == [] then 0 else if entries[0].host == h then 0 else 1 + HostEntry(entries[1..], h)
  }

  lemma EntryInRange(f: Frame, i: nat)
    requires f.Valid() && i < |f.entries|
    ensures f.entries[i].word < WORDS && (f.entries[i].wide ==> f.entries[i].word + 1 < WORDS && f.entries[i].word % 2 == 0)
  {
    assert EntryValid(f.uses, f.entries[i]);
  }

  function Restored(f: Frame, s: State): (t: State)
    requires f.Valid() && s.Valid()
    ensures t.Valid()
  {
    s.(host := seq(32, h requires 0 <= h < 32 && s.Valid() => LoadedHost(f, s.memory, h, s.host[h])))
  }

  lemma RestoredResident(f: Frame, s: State, w: Number)
    requires f.Valid() && s.Valid() && Resident(f, w)
    ensures ValueAt(Restored(f, s), Locate(f, w)) == s.memory[w]
  {
    hide Packed, Placed, BankOccupied, FindEntry, HostEntry, Resident, Locate, EntryOf;
    ResidentEntry(f, w);
    HostRange(f, EntryOf(f, w));
    var i: nat :| i < |f.entries| && f.entries[i] == EntryOf(f, w);
    UniqueHost(f, i);
    EntryInRange(f, i);
    var h := f.entries[i].host;
    assert Restored(f, s).host[h] == LoadedHost(f, s.memory, h, s.host[h]);
  }

  lemma RestoredBank(f: Frame, s: State, w: Number)
    requires f.Valid() && s.Valid() && w / 4 in f.used
    ensures ValueAt(Restored(f, s), Shadow(w)) == s.memory[w]
  {
    hide Packed, Placed, BankOccupied, FindEntry, HostEntry;
    BankHost(f, w / 4);
    var h := 16 + w / 4;
    assert Restored(f, s).host[h] == LoadedHost(f, s.memory, h, s.host[h]);
    assert s.memory[4 * (h - 16)..4 * (h - 16) + 4][w % 4] == s.memory[w];
  }

  lemma RestoredWord(f: Frame, s: State, w: Number)
    requires f.Valid() && s.Valid()
    ensures WordHolds(f, Restored(f, s), s.memory, w)
  {
    hide Packed, Placed, BankOccupied, FindEntry, HostEntry, ValueAt, LoadedHost;
    if Resident(f, w) {
      RestoredResident(f, s, w);
    } else {
      PackedLocate(f, w);
    }
    if w / 4 in f.used {
      RestoredBank(f, s, w);
    }
  }

  lemma UniqueHost(f: Frame, i: nat)
    requires f.Valid() && i < |f.entries|
    ensures HostEntry(f.entries, f.entries[i].host) == i
  {
    hide Packed, BankOccupied;
    var k := HostEntry(f.entries, f.entries[i].host);
    if k < i {
      assert false;
    }
  }

  lemma BankHost(f: Frame, bank: nat)
    requires f.Valid() && bank in f.used
    ensures HostEntry(f.entries, 16 + bank) == |f.entries|
  {
    hide Packed, BankOccupied;
    var k := HostEntry(f.entries, 16 + bank);
    if k < |f.entries| {
      HostRange(f, f.entries[k]);
    }
  }

  /** From entry to exit: restore, any observed operations with any constants,
      scratch and polls between them, flush. Every architectural word ends as its last
      write, whatever was packed, split or left untouched. */
  lemma FlushAfterRun(f: Frame, s: State, ops: seq<Op>, w: Number)
    requires f.Valid() && s.Valid() && forall op <- ops :: Legal(f, op)
    ensures FlushedWord(f, Run(f, Restored(f, s), ops), w) == PlainRun(s.memory, ops)[w]
  {
    hide WordHolds, Run, PlainRun, Restored, FlushedWord, Legal, Packed, Placed, BankOccupied;
    forall x: Number
      ensures WordHolds(f, Restored(f, s), s.memory, x)
    {
      RestoredWord(f, s, x);
    }
    RunTracks(f, Restored(f, s), s.memory, ops);
    FlushExact(f, Run(f, Restored(f, s), ops), PlainRun(s.memory, ops), w);
  }

  /** scalar_s: the value a single read yields. */
  function ReadSingle(f: Frame, s: State, w: Number): Word
    requires f.Valid() && s.Valid()
  {
    HostsInRange(f);
    var narrow, wide := FindEntry(f.entries, w, false), FindEntry(f.entries, w / 2 * 2, true);
    if narrow < |f.entries| then s.host[f.entries[narrow].host][0]
    else if wide < |f.entries| then s.host[f.entries[wide].host][w % 2]
    else s.host[16 + w / 4][w % 4]
  }

  /** scalar_d: the pair a double read yields. */
  function ReadDouble(f: Frame, s: State, d: nat): (Word, Word)
    requires f.Valid() && s.Valid() && d < 32
  {
    HostsInRange(f);
    var wide := FindEntry(f.entries, 2 * d, true);
    var lo, hi := FindEntry(f.entries, 2 * d, false), FindEntry(f.entries, 2 * d + 1, false);
    if wide < |f.entries| then (s.host[f.entries[wide].host][0], s.host[f.entries[wide].host][1])
    else if lo < |f.entries| && hi < |f.entries| then (s.host[f.entries[lo].host][0], s.host[f.entries[hi].host][0])
    else (s.host[16 + d / 2][2 * (d % 2)], s.host[16 + d / 2][2 * (d % 2) + 1])
  }

  /** Reads of observed single operands yield the architectural word. */
  lemma ReadSingleExact(f: Frame, s: State, guest: seq<Word>, w: Number)
    requires f.Valid() && Tracks(f, s, guest) && Live(f, w)
    ensures ReadSingle(f, s, w) == guest[w]
  {
    hide Packed, Placed, BankOccupied, FindEntry;
    HostsInRange(f);
    assert WordHolds(f, s, guest, w);
  }

  lemma ReadDoubleAt(f: Frame, s: State, d: nat)
    requires f.Valid() && s.Valid() && d < 32 && f.uses.doubles[d].present
    ensures ReadDouble(f, s, d) == (ValueAt(s, Locate(f, 2 * d)), ValueAt(s, Locate(f, 2 * d + 1)))
  {
    hide Packed, Placed, BankOccupied, FindEntry;
    PairResident(f, d);
    PairHosts(f, d);
    HostsInRange(f);
    var a: Number, b: Number := 2 * d, 2 * d + 1;
    assert a / 2 * 2 == 2 * d && b / 2 * 2 == 2 * d;
    assert a / 4 == d / 2 && b / 4 == d / 2 && a % 4 == 2 * (d % 2) && b % 4 == 2 * (d % 2) + 1;
  }

  /** Reads of observed double operands yield both architectural words. */
  lemma ReadDoubleExact(f: Frame, s: State, guest: seq<Word>, d: nat)
    requires f.Valid() && Tracks(f, s, guest) && d < 32 && f.uses.doubles[d].present
    requires Live(f, 2 * d) && Live(f, 2 * d + 1)
    ensures ReadDouble(f, s, d) == (guest[2 * d], guest[2 * d + 1])
  {
    hide ReadDouble, Locate, ValueAt, Packed, Placed, BankOccupied, FindEntry;
    var a: Number, b: Number := 2 * d, 2 * d + 1;
    assert WordHolds(f, s, guest, a) && WordHolds(f, s, guest, b);
    ReadDoubleAt(f, s, d);
  }

  /** The entry that covers a word is the one the lookups find. */
  lemma EntryLocates(f: Frame, i: nat, w: Number)
    requires f.Valid() && i < |f.entries| && f.entries[i].Covers(w)
    ensures Resident(f, w) && EntryOf(f, w) == f.entries[i]
  {
    assert EntryValid(f.uses, f.entries[i]);
    assert Holds(f.entries, f.entries[i].word, f.entries[i].wide);
    assert f.entries[i].wide ==> f.entries[i].word == w / 2 * 2;
    ResidentEntry(f, w);
    var j: nat :| j < |f.entries| && f.entries[j] == EntryOf(f, w);
    hide Packed, Placed, BankOccupied, FindEntry;
    SameEntry(f, i, j, w);
  }

  lemma SameEntry(f: Frame, i: nat, j: nat, w: Number)
    requires f.Valid() && i < |f.entries| && j < |f.entries| && f.entries[i].Covers(w) && f.entries[j].Covers(w)
    ensures i == j
  {
    assert i < j ==> Disjoint(f.entries[i], f.entries[j]);
    assert j < i ==> Disjoint(f.entries[j], f.entries[i]);
  }

  /** Store every dirty bank, adjacent ones in pairs, then every written resident. */
  method Flush(f: Frame, s: State) returns (memory: seq<Word>)
    requires f.Valid() && s.Valid()
    ensures |memory| == WORDS && forall w: Number :: memory[w] == FlushedWord(f, s, w)
  {
    memory := StoreBanks(f, s);
    var i: nat := 0;
    while i < |f.entries|
      invariant i <= |f.entries| && |memory| == WORDS
      invariant forall w: Number :: memory[w] == FlushedBefore(f, s, w, i)
    {
      EntryInRange(f, i);
      HostsInRange(f);
      var e, before := f.entries[i], memory;
      if e.written {
        memory := memory[e.word := s.host[e.host][0]];
        if e.wide {
          memory := memory[e.word + 1 := s.host[e.host][1]];
        }
      }
      forall w: Number
        ensures memory[w] == FlushedBefore(f, s, w, i + 1)
      {
        StoredEntry(f, s, i, w);
      }
      i := i + 1;
    }
    forall w: Number
      ensures memory[w] == FlushedWord(f, s, w)
    {
      AllStored(f, s, w);
    }
  }

  /** A word after the banks and the first i residents are stored. */
  function FlushedBefore(f: Frame, s: State, w: Number, i: nat): Word
    requires s.Valid() && i <= |f.entries|
  {
    if exists k :: 0 <= k < i && f.entries[k].Covers(w) && f.entries[k].written then ValueAt(s, Locate(f, w))
    else if w / 4 in f.dirty then ValueAt(s, Shadow(w)) else s.memory[w]
  }

  lemma StoredEntry(f: Frame, s: State, i: nat, w: Number)
    requires f.Valid() && s.Valid() && i < |f.entries|
    ensures var e := f.entries[i];
            FlushedBefore(f, s, w, i + 1) ==
            if e.written && e.Covers(w) then ValueAt(s, Location(e.host, if e.word == w then 0 else 1))
            else FlushedBefore(f, s, w, i)
  {
    hide Packed, Placed, BankOccupied, FindEntry, Locate, ValueAt;
    var e := f.entries[i];
    if e.Covers(w) {
      EntryLocates(f, i, w);
      ResidentEntry(f, w);
      EntryInRange(f, i);
    }
  }

  lemma AllStored(f: Frame, s: State, w: Number)
    requires f.Valid() && s.Valid()
    ensures FlushedBefore(f, s, w, |f.entries|) == FlushedWord(f, s, w)
  {
    hide Packed, Placed, BankOccupied, FindEntry, Locate, ValueAt;
    if k: nat :| k < |f.entries| && f.entries[k].Covers(w) && f.entries[k].written {
      EntryLocates(f, k, w);
    }
    if Resident(f, w) {
      ResidentEntry(f, w);
      var j: nat :| j < |f.entries| && f.entries[j] == EntryOf(f, w);
    }
  }

  method StoreBanks(f: Frame, s: State) returns (memory: seq<Word>)
    requires s.Valid()
    ensures |memory| == WORDS
    ensures forall w: Number :: memory[w] == if w / 4 in f.dirty then ValueAt(s, Shadow(w)) else s.memory[w]
  {
    memory := s.memory;
    var q: nat := 0;
    while q < BANKS
      invariant q <= BANKS && |memory| == WORDS
      invariant forall w: Number ::
                  memory[w] == if w / 4 < q && w / 4 in f.dirty then ValueAt(s, Shadow(w)) else s.memory[w]
    {
      if q in f.dirty {
        memory := StoreBank(s, memory, q);
        if q + 1 < BANKS && q + 1 in f.dirty {
          q := q + 1;
          memory := StoreBank(s, memory, q);
        }
      }
      q := q + 1;
    }
  }

  method StoreBank(s: State, memory: seq<Word>, q: nat) returns (stored: seq<Word>)
    requires s.Valid() && |memory| == WORDS && q < BANKS
    ensures |stored| == WORDS
    ensures forall w: Number :: stored[w] == if w / 4 == q then ValueAt(s, Shadow(w)) else memory[w]
  {
    stored := memory[..4 * q] + s.host[16 + q] + memory[4 * q + 4..];
    assert forall w: Number :: w / 4 == q ==> w - 4 * q == w % 4;
  }
}
