/** The banks a compiled cycle loads and stores.

Every operand that no resident holds marks its packed bank as it is compiled,
on conditional paths too. The masks found at the end make every operation that
the cycle can perform, in any order and any number of times, a legal one.
 */
module VectorFrames {
  import opened Words
  import opened ScalarRegisterPlan
  import opened VectorRegisters

  /** An operand as an emitter compiles it. */
  datatype Operand =
    | ReadsSingle(word: Number)
    | ReadsDouble(d: nat)
    | ReadsLane(word: Number)
    | WritesSingle(word: Number)
    | WritesDouble(d: nat)
    | WritesLane(word: Number)

  datatype Masks = Masks(used: set<nat>, dirty: set<nat>)

  function ObservedAll(u: Uses, accesses: seq<Access>): (v: Uses)
    requires u.Valid()
    ensures v.Valid()
    decreases |accesses|
  {
    if accesses == [] then u else ObservedAll(Observed(u, accesses[0]), accesses[1..])
  }

  /** The access that was observed for this operand when the plan was made. */
  predicate Describes(a: Access, o: Operand) {
    match o
    case ReadsSingle(w) => a.Scalar? && !a.wide && a.word == w
    case ReadsDouble(d) => a.Scalar? && a.wide && a.word / 2 == d
    case ReadsLane(w) => a == Bulk(w)
    case WritesSingle(w) => a.Scalar? && !a.wide && a.write && a.word == w
    case WritesDouble(d) => a.Scalar? && a.wide && a.write && a.word / 2 == d
    case WritesLane(w) => a == Bulk(w)
  }

  predicate Planned(u: Uses, o: Operand)
    requires u.Valid()
  {
    match o
    case ReadsSingle(w) => u.singles[w].present
    case ReadsDouble(d) => d < 32 && u.doubles[d].present
    case ReadsLane(w) => w in u.blocked
    case WritesSingle(w) => u.singles[w].written
    case WritesDouble(d) => d < 32 && u.doubles[d].written
    case WritesLane(w) => w in u.blocked
  }

  /** Later observations never lose an operand. */
  lemma {:induction false} StaysPlanned(u: Uses, accesses: seq<Access>, o: Operand)
    requires u.Valid() && Planned(u, o)
    ensures Planned(ObservedAll(u, accesses), o)
    decreases |accesses|
  {
    if accesses != [] {
      StaysPlanned(Observed(u, accesses[0]), accesses[1..], o);
    }
  }

  lemma {:induction false} ObservedPlanned(u: Uses, accesses: seq<Access>, i: nat, o: Operand)
    requires u.Valid() && i < |accesses| && Describes(accesses[i], o)
    ensures Planned(ObservedAll(u, accesses), o)
    decreases |accesses|
  {
    if i == 0 {
      StaysPlanned(Observed(u, accesses[0]), accesses[1..], o);
    } else {
      ObservedPlanned(Observed(u, accesses[0]), accesses[1..], i - 1, o);
    }
  }

  function BankOf(o: Operand): nat {
    match o
    case ReadsSingle(w) => w / 4
    case ReadsDouble(d) => d / 2
    case ReadsLane(w) => w / 4
    case WritesSingle(w) => w / 4
    case WritesDouble(d) => d / 2
    case WritesLane(w) => w / 4
  }

  predicate Writes(o: Operand) {
    o.WritesSingle? || o.WritesDouble? || o.WritesLane?
  }

  predicate HoldsSingle(entries: seq<Entry>, w: Number) {
    FindEntry(entries, w, false) < |entries| || FindEntry(entries, w / 2 * 2, true) < |entries|
  }

  /** A double's pair, whole or in two halves. */
  predicate HoldsDouble(entries: seq<Entry>, d: nat) {
    FindEntry(entries, 2 * d, true) < |entries| ||
    (FindEntry(entries, 2 * d, false) < |entries| && FindEntry(entries, 2 * d + 1, false) < |entries|)
  }

  /** Residents serve the operand, so that it needs no bank. */
  predicate Served(entries: seq<Entry>, o: Operand) {
    match o
    case ReadsSingle(w) => HoldsSingle(entries, w)
    case WritesSingle(w) => HoldsSingle(entries, w)
    case ReadsDouble(d) => HoldsDouble(entries, d)
    case WritesDouble(d) => HoldsDouble(entries, d)
    case _ => false
  }

  /** The banks of the operands that residents do not serve. */
  function Banks(entries: seq<Entry>, operands: seq<Operand>, writes: bool): set<nat> {
    set o | o in operands && !Served(entries, o) && (writes ==> Writes(o)) :: BankOf(o)
  }

  function Compiled(entries: seq<Entry>, operands: seq<Operand>): Masks {
    Masks(Banks(entries, operands, false), Banks(entries, operands, true))
  }

  lemma BanksGrow(entries: seq<Entry>, operands: seq<Operand>, o: Operand, writes: bool)
    ensures Banks(entries, operands + [o], writes) ==
            Banks(entries, operands, writes) + (if !Served(entries, o) && (writes ==> Writes(o)) then {BankOf(o)} else {})
  {
    hide Served;
  }

  /** The masks as they are kept during compilation. */
  class Registers {
    const entries: seq<Entry>
    var used: set<nat>
    var dirty: set<nat>

    constructor (entries: seq<Entry>)
      ensures this.entries == entries && Now() == Compiled(entries, [])
    {
      this.entries := entries;
      used, dirty := {}, {};
    }

    function Now(): Masks
      reads this
    {
      Masks(used, dirty)
    }

    method Read(bank: nat)
      modifies `used
      ensures used == old(used) + {bank}
    {
      used := used + {bank};
    }

    method Write(bank: nat)
      modifies `used, `dirty
      ensures used == old(used) + {bank} && dirty == old(dirty) + {bank}
    {
      dirty := dirty + {bank};
      Read(bank);
    }

    /** Compile one operand. */
    method Compile(o: Operand, ghost before: seq<Operand>)
      requires Now() == Compiled(entries, before)
      modifies this
      ensures Now() == Compiled(entries, before + [o])
    {
      BanksGrow(entries, before, o, false);
      BanksGrow(entries, before, o, true);
      hide Banks, Served, Writes;
      if !Served(entries, o) {
        if Writes(o) {
          Write(BankOf(o));
        } else {
          Read(BankOf(o));
        }
      }
    }
  }

  /** The frame that a cycle of these operands is compiled to. */
  function FrameOf(u: Uses, entries: seq<Entry>, units: nat, operands: seq<Operand>): Frame {
    var m := Compiled(entries, operands);
    Frame(u, entries, units, m.used, m.dirty)
  }

  ghost predicate Fits(u: Uses, entries: seq<Entry>, units: nat, operands: seq<Operand>) {
    && u.Valid() && units <= 2 && Packed(u, entries) && Placed(u, entries, units)
    && forall o <- operands :: Planned(u, o)
  }

  /** Planned operands only ever mark banks that the plan keeps residents out of. */
  lemma FrameValid(u: Uses, entries: seq<Entry>, units: nat, operands: seq<Operand>)
    requires Fits(u, entries, units, operands)
    ensures FrameOf(u, entries, units, operands).Valid()
  {
    hide Packed, Placed, Served;
    forall bank <- Banks(entries, operands, false)
      ensures bank < BANKS && BankOccupied(u, bank)
    {
      var o :| o in operands && BankOf(o) == bank;
      OperandOccupies(u, o);
    }
  }

  lemma OperandOccupies(u: Uses, o: Operand)
    requires u.Valid() && Planned(u, o)
    ensures BankOf(o) < BANKS && BankOccupied(u, BankOf(o))
  {
    var w: Number := match o
      case ReadsDouble(d) => 2 * d
      case WritesDouble(d) => 2 * d
      case _ => o.word;
    assert w / 4 == BankOf(o) && Touched(u, w);
  }

  /** The operation executes one of the compiled operands, or is a control poll or
      a use of scratch and constant registers. */
  predicate Performs(f: Frame, operands: seq<Operand>, op: Op)
    requires f.Valid()
  {
    match op
    case Single(w, _) => WritesSingle(w) in operands
    case Double(d, _, _) => WritesDouble(d) in operands
    case BulkLane(w, _) => WritesLane(w) in operands
    case Scratch(_, _) => Legal(f, op)
    case Poll(_) => Legal(f, op)
  }

  lemma PerformsLegal(u: Uses, entries: seq<Entry>, units: nat, operands: seq<Operand>, op: Op)
    requires Fits(u, entries, units, operands)
    requires FrameOf(u, entries, units, operands).Valid() && Performs(FrameOf(u, entries, units, operands), operands, op)
    ensures Legal(FrameOf(u, entries, units, operands), op)
  {
    hide Packed, Placed, BankOccupied, FindEntry;
    match op
    case Single(w, _) =>
      Marked(entries, operands, WritesSingle(w));
    case Double(d, _, _) =>
      Marked(entries, operands, WritesDouble(d));
    case BulkLane(w, _) =>
      Marked(entries, operands, WritesLane(w));
    case _ =>
  }

  lemma Marked(entries: seq<Entry>, operands: seq<Operand>, o: Operand)
    requires o in operands
    ensures Served(entries, o) || BankOf(o) in Banks(entries, operands, false)
    ensures Writes(o) ==> Served(entries, o) || BankOf(o) in Banks(entries, operands, true)
  {
    hide Served;
  }

  /** A compiled single read finds the architectural word, resident or packed. */
  lemma CompiledRead(u: Uses, entries: seq<Entry>, units: nat, operands: seq<Operand>, s: State, guest: seq<Word>, w: Number)
    requires Fits(u, entries, units, operands) && FrameOf(u, entries, units, operands).Valid()
    requires Tracks(FrameOf(u, entries, units, operands), s, guest) && ReadsSingle(w) in operands
    ensures ReadSingle(FrameOf(u, entries, units, operands), s, w) == guest[w]
  {
    hide Packed, Placed, BankOccupied, FindEntry, ReadSingle, WordHolds;
    Marked(entries, operands, ReadsSingle(w));
    ReadSingleExact(FrameOf(u, entries, units, operands), s, guest, w);
  }

  /** A compiled double read finds both architectural words. */
  lemma CompiledReadDouble(u: Uses, entries: seq<Entry>, units: nat, operands: seq<Operand>, s: State, guest: seq<Word>, d: nat)
    requires Fits(u, entries, units, operands) && FrameOf(u, entries, units, operands).Valid()
    requires Tracks(FrameOf(u, entries, units, operands), s, guest) && d < 32 && ReadsDouble(d) in operands
    ensures ReadDouble(FrameOf(u, entries, units, operands), s, d) == (guest[2 * d], guest[2 * d + 1])
  {
    hide Packed, Placed, BankOccupied, FindEntry, ReadDouble, WordHolds;
    var f := FrameOf(u, entries, units, operands);
    assert Planned(u, ReadsDouble(d));
    Marked(entries, operands, ReadsDouble(d));
    PairResident(f, d);
    var a: Number, b: Number := 2 * d, 2 * d + 1;
    assert a / 2 * 2 == 2 * d == b / 2 * 2 && a / 4 == d / 2 == b / 4;
    assert Live(f, a) && Live(f, b);
    ReadDoubleExact(f, s, guest, d);
  }

  /** From the observed cycle to its exit. The plan is made from the accesses, the
      masks from the operands compiled for them; whatever the compiled code then
      executes, with polls anywhere, each architectural word leaves as its last write. */
  lemma CompiledFlush(accesses: seq<Access>, start: Uses, entries: seq<Entry>, units: nat, operands: seq<Operand>,
                      s: State, ops: seq<Op>, w: Number)
    requires start.Valid() && units <= 2 && s.Valid()
    requires Packed(ObservedAll(start, accesses), entries) && Placed(ObservedAll(start, accesses), entries, units)
    requires forall o <- operands :: exists i :: 0 <= i < |accesses| && Describes(accesses[i], o)
    ensures var f := FrameOf(ObservedAll(start, accesses), entries, units, operands);
            && f.Valid()
            && ((forall op <- ops :: Performs(f, operands, op)) ==>
                  && (forall op <- ops :: Legal(f, op))
                  && FlushedWord(f, Run(f, Restored(f, s), ops), w) == PlainRun(s.memory, ops)[w])
  {
    hide Packed, Placed, Planned, Describes, ObservedAll, Performs, Legal, FlushedWord, Run, PlainRun, Restored,
         FrameOf;
    var u := ObservedAll(start, accesses);
    forall o <- operands
      ensures Planned(u, o)
    {
      var i :| 0 <= i < |accesses| && Describes(accesses[i], o);
      ObservedPlanned(start, accesses, i, o);
    }
    FrameValid(u, entries, units, operands);
    var f := FrameOf(u, entries, units, operands);
    if forall op <- ops :: Performs(f, operands, op) {
      forall op <- ops
        ensures Legal(f, op)
      {
        PerformsLegal(u, entries, units, operands, op);
      }
      FlushAfterRun(f, s, ops, w);
    }
  }
}
