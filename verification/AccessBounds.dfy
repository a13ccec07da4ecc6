/** Bounds of every access of one cycle.

The analysis of one cycle bounds every access relative to its base register at
cycle entry; windows merge the bounds, expansion covers several copies of the
cycle, and one entry guard then proves all copies page-local.
 */
module AccessBounds {
  import opened Words
  import opened Wrappers
  import opened Isa
  import opened IntegerSemantics
  import opened IndexBounds
  import opened AddressDisplacements
  import opened AddressKeys
  import opened AddressSegments

  datatype Access = Access(
    key: Key, first: int, end: int, residue: nat, valid: bool, adjusted: bool,
    stride: Option<Reg>, firstCoefficient: int, lastCoefficient: int)

  function Unseen(key: Key): Access {
    Access(key, 0, 0, 0, true, false, None, 0, 0)
  }

  predicate Fits(first: int, end: int) {
    first < end && end - first <= PAGE && Max(0, -first) <= Min(PAGE - 1, PAGE - end)
  }

  /** Bounds of the offset alone, before the base displacement. */
  datatype Range = Range(low: int, high: int, valid: bool)

  function OffsetRange(key: Key, bits: seq<Option<Word>>): Range
    requires |bits| == 16
  {
    var offset := Towards(key.add, key.offset);
    if key.index.None? then Range(offset, offset, true)
    else if bits[key.index.value].None? || key.offset != 0 then Range(offset, offset, false)
    else
      var mask := bits[key.index.value].value;
      if key.shift == Lsl && !(key.shiftAmount < 32 && mask * Pow2(key.shiftAmount) < WORD)
      then Range(offset, offset, false)
      else
        var shifted := Shift(mask, key.shift, key.shiftAmount, false, false).value;
        Range(if key.add then 0 else Towards(false, shifted), if key.add then shifted else 0, shifted % key.Aligned() == 0)
  }

  /** The recorded access after one more occurrence of its key. */
  function Noted(a: Access, facts: Facts, bits: seq<Option<Word>>, writeback: bool): (b: Access)
    requires Wellformed(facts) && |bits| == 16
    ensures b.key == a.key && (b.valid ==> a.valid)
  {
    var key, displacement := a.key, facts.values[a.key.base];
    var range, alignment := OffsetRange(key, bits), key.Aligned();
    var e := if displacement.Some? then displacement.value else UNCHANGED;
    var indexed := displacement.Some? && e.index.Some?;
    var strided := indexed ==> (a.stride.None? || a.stride == e.index) && key.index.None? && e.coefficient % alignment == 0;
    var low, high := range.low + e.constant, range.high + e.constant + key.size;
    var residue := low % alignment;
    var seen := a.end != 0 || a.first != 0;
    var valid := displacement.Some? && range.valid && strided && Fits(low, high) && (seen ==> a.residue == residue);
    var b := a.(stride := if indexed then e.index else a.stride, valid := a.valid && valid,
                adjusted := a.adjusted || e != UNCHANGED || writeback);
    if !(a.valid && valid) then b
    else if !seen then
      b.(first := low, end := high, residue := residue, firstCoefficient := e.coefficient, lastCoefficient := e.coefficient)
    else
      b.(first := Min(a.first, low), end := Max(a.end, high), residue := residue,
         firstCoefficient := Min(a.firstCoefficient, e.coefficient),
         lastCoefficient := Max(a.lastCoefficient, e.coefficient))
  }

  /** Possible bits known of a written register. */
  function KnownBits(inst: Instruction): Option<Word> {
    if inst.kind.DataProcessing? && inst.condition == 14 && inst.immediateOperand then
      if inst.opcode == 0 || inst.opcode == 13 then Some(inst.immediate)
      else if inst.opcode == 14 || inst.opcode == 15 then Some(Not(inst.immediate))
      else None
    else None
  }

  datatype Analysis = Analysis(accesses: seq<Access>, bits: seq<Option<Word>>, facts: Facts)

  const NO_BITS: seq<Option<Word>> :=
    [None, None, None, None, None, None, None, None, None, None, None, None, None, None, None, None]

  const START: Analysis := Analysis([], NO_BITS, INITIAL)

  predicate Shaped(s: Analysis) {
    && |s.bits| == 16 && Wellformed(s.facts)
    && (forall i, j :: 0 <= i < j < |s.accesses| ==> s.accesses[i].key != s.accesses[j].key)
  }

  function Position(accesses: seq<Access>, key: Key): (i: nat)
    ensures i <= |accesses| && (i < |accesses| ==> accesses[i].key == key)
    ensures forall k :: 0 <= k < i ==> accesses[k].key != key
  {
    if accesses == [] || accesses[0].key == key then 0 else 1 + Position(accesses[1..], key)
  }

  predicate Bounded(key: Option<Key>) {
    key.Some? && key.value.base < 15 && key.value.pcBase.None?
  }

  function Recorded(s: Analysis, key: Key, writeback: bool): seq<Access>
    requires Shaped(s)
  {
    var i := Position(s.accesses, key);
    if i == |s.accesses| then s.accesses + [Noted(Unseen(key), s.facts, s.bits, writeback)]
    else s.accesses[i := Noted(s.accesses[i], s.facts, s.bits, writeback)]
  }

  function BitsAfter(bits: seq<Option<Word>>, inst: Instruction): seq<Option<Word>>
    requires |bits| == 16
  {
    var kept := seq(16, r requires 0 <= r < 16 => if r in WrittenRegisters(inst) then None else bits[r]);
    if KnownBits(inst).Some? then kept[inst.rd := KnownBits(inst)] else kept
  }

  function Advance(s: Analysis, inst: Instruction, key: Option<Key>): (t: Analysis)
    requires Shaped(s)
    ensures Shaped(t)
  {
    hide Noted, KnownBits, Observed, WrittenRegisters;
    Analysis(if Bounded(key) then Recorded(s, key.value, inst.writeback) else s.accesses,
             BitsAfter(s.bits, inst), Observed(s.facts, inst))
  }

  /** Multiplier of a strided form: the signed value of the stride register. */
  function StrideOf(stride: Option<Reg>, entry: seq<Word>): int
    requires |entry| == 16
  {
    if stride.Some? then Signed(entry[stride.value]) else 0
  }

  /** One concrete access lies within the recorded bounds, on their lattice. */
  ghost predicate FormedBy(a: Access, entry: seq<Word>, ea: Word, d: int, c: int)
    requires |entry| == 16
  {
    && ea == Wrap(entry[a.key.base] + d + c * StrideOf(a.stride, entry))
    && a.first <= d && d + a.key.size <= a.end
    && a.firstCoefficient <= c <= a.lastCoefficient
    && (d - a.residue) % a.key.Aligned() == 0 && c % a.key.Aligned() == 0
  }

  ghost predicate Formed(a: Access, entry: seq<Word>, ea: Word)
    requires |entry| == 16
  {
    exists d: int, c: int :: FormedBy(a, entry, ea, d, c)
  }

  /** What every recorded access keeps, whatever the registers held. */
  predicate Sane(a: Access) {
    && (a.valid ==> a.first < a.end)
    && (a.stride.None? ==> a.firstCoefficient == 0 == a.lastCoefficient)
    && -HALF <= a.firstCoefficient && a.lastCoefficient < HALF
  }

  /** Address keys never scale an index by RRX or index by the PC. */
  predicate Formable(key: Key) {
    key.index.Some? ==> key.index.value < 15 && (key.shift == Ror ==> key.shiftAmount != 0)
  }

  ghost predicate BitsSound(bits: seq<Option<Word>>, current: seq<Word>) {
    |bits| == |current| == 16 &&
    forall r: Reg :: r < 15 && bits[r].Some? ==> Within(current[r], bits[r].value)
  }

  /** The offset a key adds is inside the range computed from possible bits. */
  lemma OffsetInRange(key: Key, bits: seq<Option<Word>>, regs: seq<Word>)
    requires Formable(key) && BitsSound(bits, regs) && OffsetRange(key, bits).valid
    ensures var range, offset := OffsetRange(key, bits), Towards(key.add, Offset(key, regs));
            range.low <= offset <= range.high && (offset - range.low) % key.Aligned() == 0
  {
    hide Shift, Pow2, Within;
    if key.index.Some? {
      var mask, value := bits[key.index.value].value, regs[key.index.value];
      ShiftWithin(value, mask, key.shift, key.shiftAmount);
      InLattice(Shift(value, key.shift, key.shiftAmount, false, false).value,
                Shift(mask, key.shift, key.shiftAmount, false, false).value, key.Aligned());
    }
  }

  /** A value within a mask on the lattice is on it too, and so is its distance. */
  lemma InLattice(x: Word, y: Word, g: Alignment)
    requires Within(x, y) && y % g == 0
    ensures x <= y && (x - 0) % g == 0 && (y - x) % g == 0
  {
    hide Within;
    WithinBounds(x, y);
    AlignedWithin(x, y, g);
    LatticeFlip(x, y, g);
  }

  /** Bounds aligned as a bit mask align every value they bound. */
  lemma AlignedWithin(x: Word, y: Word, alignment: Alignment)
    requires Within(x, y) && y % alignment == 0
    ensures x % alignment == 0
  {
    var k: nat := match alignment case 1 => 0 case 2 => 1 case 4 => 2 case 8 => 3 case 16 => 4 case _ => 5;
    assert Pow2(k) == alignment by {
      assert Pow2(2) == 4;
      assert Pow2(4) == 16;
    }
    WithinMultiple(x, y, k);
  }

  lemma LatticeFlip(x: int, y: int, g: Alignment)
    requires x % g == 0 && y % g == 0
    ensures (x - 0) % g == 0 && (y - x) % g == 0
  {
    MultiplesAdd(y, x, g);
  }

  /** Noting an access never loses one already bounded. */
  lemma NotedKeeps(a: Access, facts: Facts, bits: seq<Option<Word>>, writeback: bool, entry: seq<Word>, ea: Word)
    requires Wellformed(facts) && |bits| == 16 && |entry| == 16 && Sane(a) && Formed(a, entry, ea)
    requires Noted(a, facts, bits, writeback).valid
    ensures Formed(Noted(a, facts, bits, writeback), entry, ea)
  {
    hide OffsetRange;
    var b := Noted(a, facts, bits, writeback);
    var d: int, c: int :| FormedBy(a, entry, ea, d, c);
    assert FormedBy(b, entry, ea, d, c);
  }

  /** The address formed now, over the entry registers. */
  lemma AddressForm(key: Key, facts: Facts, entry: seq<Word>, current: seq<Word>)
    requires Sound(facts, entry, current) && key.pcBase.None? && facts.values[key.base].Some?
    ensures var e := facts.values[key.base].value;
            EffectiveAddress(key, current) ==
            Wrap(entry[key.base] + (e.constant + Towards(key.add, Offset(key, current))) +
                 e.coefficient * StrideOf(e.index, entry))
  {
    hide Offset;
    var e, offset := facts.values[key.base].value, Towards(key.add, Offset(key, current));
    if e.index.Some? {
      StridedForm(entry[key.base], e.constant, e.coefficient, entry[e.index.value], offset);
    } else {
      SumMoves(entry[key.base], e.constant, offset);
    }
  }

  /** A valid note bounds the address formed now. */
  lemma NotedCovers(a: Access, facts: Facts, bits: seq<Option<Word>>, writeback: bool,
                    entry: seq<Word>, current: seq<Word>)
    requires Sound(facts, entry, current) && BitsSound(bits, current) && (a == Unseen(a.key) || Sane(a))
    requires Formable(a.key) && a.key.pcBase.None? && Noted(a, facts, bits, writeback).valid
    ensures Formed(Noted(a, facts, bits, writeback), entry, EffectiveAddress(a.key, current))
    ensures a.key.index.Some? ==> Offset(a.key, current) < PAGE
  {
    hide Offset, OffsetRange, Sound, EffectiveAddress, StrideOf, Sane, Within, Noted, Fits, Formed, FormedBy, Wrap;
    var key, offset := a.key, Towards(a.key.add, Offset(a.key, current));
    NotedForm(key, facts, entry, current);
    NotedValid(a, facts, bits, writeback);
    OffsetInRange(key, bits, current);
    NotedBounds(a, facts, bits, writeback, offset);
    NotedFormed(Noted(a, facts, bits, writeback), facts.values[key.base].value, OffsetRange(key, bits), offset, entry,
                EffectiveAddress(key, current));
    if key.index.Some? {
      ShortIndex(key, facts.values[key.base].value, bits, offset);
    }
  }

  lemma NotedValid(a: Access, facts: Facts, bits: seq<Option<Word>>, writeback: bool)
    requires Wellformed(facts) && |bits| == 16 && Noted(a, facts, bits, writeback).valid
    ensures facts.values[a.key.base].Some? && OffsetRange(a.key, bits).valid
  {
    hide OffsetRange, Fits;
  }

  /** Bounds around an offset on the lattice bound the address it forms. */
  lemma NotedFormed(b: Access, e: Expression, range: Range, offset: int, entry: seq<Word>, ea: Word)
    requires |entry| == 16 && e.Normal() && (e.index.Some? ==> b.stride == e.index)
    requires (offset - range.low) % b.key.Aligned() == 0 && e.coefficient % b.key.Aligned() == 0
    requires b.first <= e.constant + offset && e.constant + offset + b.key.size <= b.end
    requires b.firstCoefficient <= e.coefficient <= b.lastCoefficient
    requires b.residue == (e.constant + range.low) % b.key.Aligned()
    requires ea == Wrap(entry[b.key.base] + (e.constant + offset) + e.coefficient * StrideOf(e.index, entry))
    ensures Formed(b, entry, ea)
  {
    hide StrideOf, Wrap, Key.Aligned;
    assert e.constant + offset - (e.constant + range.low) == offset - range.low;
    LatticeResidue(e.constant + range.low, e.constant + offset, b.key.Aligned());
    NoScale(e, b.stride, entry);
    assert FormedBy(b, entry, ea, e.constant + offset, e.coefficient);
  }

  lemma NotedForm(key: Key, facts: Facts, entry: seq<Word>, current: seq<Word>)
    requires Sound(facts, entry, current) && key.pcBase.None?
    ensures |entry| == |current| == 16 && Wellformed(facts)
    ensures facts.values[key.base].Some? ==>
              var e := facts.values[key.base].value;
              e.Normal() &&
              EffectiveAddress(key, current) ==
              Wrap(entry[key.base] + (e.constant + Towards(key.add, Offset(key, current))) +
                   e.coefficient * StrideOf(e.index, entry))
  {
    hide Offset, EffectiveAddress, StrideOf;
    if facts.values[key.base].Some? {
      AddressForm(key, facts, entry, current);
    }
  }

  /** Without an index nothing is scaled, whatever the stride. */
  lemma NoScale(e: Expression, stride: Option<Reg>, entry: seq<Word>)
    requires |entry| == 16 && e.Normal() && (e.index.Some? ==> stride == e.index)
    ensures e.coefficient * StrideOf(e.index, entry) == e.coefficient * StrideOf(stride, entry)
  {
  }

  /** The bounds a valid note leaves around the offset formed now. */
  lemma NotedBounds(a: Access, facts: Facts, bits: seq<Option<Word>>, writeback: bool, offset: int)
    requires Wellformed(facts) && |bits| == 16 && (a == Unseen(a.key) || Sane(a)) && Noted(a, facts, bits, writeback).valid
    requires OffsetRange(a.key, bits).low <= offset <= OffsetRange(a.key, bits).high
    ensures var b, e := Noted(a, facts, bits, writeback), facts.values[a.key.base].value;
            && facts.values[a.key.base].Some? && OffsetRange(a.key, bits).valid
            && b.first <= e.constant + offset && e.constant + offset + a.key.size <= b.end
            && b.firstCoefficient <= e.coefficient <= b.lastCoefficient && e.coefficient % a.key.Aligned() == 0
            && b.residue == (e.constant + OffsetRange(a.key, bits).low) % a.key.Aligned()
            && Fits(e.constant + OffsetRange(a.key, bits).low, e.constant + OffsetRange(a.key, bits).high + a.key.size)
            && (e.index.Some? ==> b.stride == e.index)
  {
    hide OffsetRange;
  }

  /** The range of an index that fits a page starts or ends at zero. */
  lemma ShortIndex(key: Key, e: Expression, bits: seq<Option<Word>>, offset: int)
    requires |bits| == 16 && key.index.Some? && OffsetRange(key, bits).valid
    requires OffsetRange(key, bits).low <= offset <= OffsetRange(key, bits).high
    requires Fits(e.constant + OffsetRange(key, bits).low, e.constant + OffsetRange(key, bits).high + key.size)
    ensures -PAGE < offset < PAGE
  {
    hide Shift, Pow2;
  }

  lemma StridedForm(base: Word, constant: int, c: int, index: Word, offset: int)
    ensures Wrap(Wrap(base + (constant + c * index)) + offset) == Wrap(base + (constant + offset) + c * Signed(index))
  {
    SumMoves(base, constant + c * index, offset);
    SignedMultiplier(base + constant + offset, c, index);
  }

  lemma LatticeResidue(low: int, d: int, g: Alignment)
    requires (d - low) % g == 0
    ensures (d - low % g) % g == 0
  {
    ResidueMissing(low, g);
    MultiplesAdd(d - low, low - low % g, g);
  }

  lemma NotedSane(a: Access, facts: Facts, bits: seq<Option<Word>>, writeback: bool)
    requires Wellformed(facts) && |bits| == 16 && (a == Unseen(a.key) || Sane(a))
    ensures Sane(Noted(a, facts, bits, writeback))
  {
    hide OffsetRange;
  }

  /** The bounds recorded for a key hold the address formed with this offset. */
  ghost predicate Covered(accesses: seq<Access>, key: Key, entry: seq<Word>, ea: Word, offset: Word)
    requires |entry| == 16
  {
    var i := Position(accesses, key);
    i < |accesses| && (accesses[i].valid ==> Formed(accesses[i], entry, ea) && (key.index.Some? ==> offset < PAGE))
  }

  /** The analysis after some prefix of the cycle: its facts hold of the
      registers there, and its accesses are well formed. */
  ghost predicate Tracks(s: Analysis, entry: seq<Word>, current: seq<Word>) {
    && Shaped(s) && Sound(s.facts, entry, current) && BitsSound(s.bits, current)
  }

  predicate AllSane(s: Analysis) {
    forall a <- s.accesses :: Sane(a)
  }

  lemma AdvanceSane(s: Analysis, inst: Instruction, key: Option<Key>)
    requires Shaped(s) && AllSane(s)
    ensures AllSane(Advance(s, inst, key))
  {
    hide Noted, Sane;
    if Bounded(key) {
      var i := Position(s.accesses, key.value);
      NotedSane(if i < |s.accesses| then s.accesses[i] else Unseen(key.value), s.facts, s.bits, inst.writeback);
    }
  }

  /** Immediate moves and masks bound the register they write. */
  lemma BitsAdvance(bits: seq<Option<Word>>, inst: Instruction, before: seq<Word>, after: seq<Word>)
    requires BitsSound(bits, before) && Retires(inst, before, after)
    ensures BitsSound(BitsAfter(bits, inst), after)
  {
    hide BaseUpdated, Within;
    if KnownBits(inst).Some? && inst.rd < 15 {
      KnownBitsHold(inst, before, after);
    }
  }

  lemma KnownBitsHold(inst: Instruction, before: seq<Word>, after: seq<Word>)
    requires Retires(inst, before, after) && KnownBits(inst).Some? && inst.rd < 15
    ensures Within(after[inst.rd], KnownBits(inst).value)
  {
    var a: Word, flags: Flags :| AluWrites(inst, before, after, a, flags);
    hide Within;
    AndWithin(a, inst.immediate);
    AndWithin(a, Not(inst.immediate));
    WithinReflexive(KnownBits(inst).value);
  }

  lemma AdvanceTracks(s: Analysis, inst: Instruction, key: Option<Key>, entry: seq<Word>, before: seq<Word>, after: seq<Word>)
    requires Tracks(s, entry, before) && Retires(inst, before, after)
    ensures Tracks(Advance(s, inst, key), entry, after)
  {
    hide Sound, BitsSound, Retires, BitsAfter, Observed, Shaped;
    ObservedSound(s.facts, inst, entry, before, after);
    BitsAdvance(s.bits, inst, before, after);
  }

  /** Recording one access keeps every other and covers the one formed now. */
  lemma RecordedCovers(s: Analysis, key: Key, writeback: bool, entry: seq<Word>, current: seq<Word>)
    requires Tracks(s, entry, current) && AllSane(s) && Bounded(Some(key)) && Formable(key)
    ensures Covered(Recorded(s, key, writeback), key, entry, EffectiveAddress(key, current), Offset(key, current))
  {
    hide Noted, Sound, BitsSound, Formed, EffectiveAddress, Offset, Sane;
    var i := Position(s.accesses, key);
    var a := if i < |s.accesses| then s.accesses[i] else Unseen(key);
    if Noted(a, s.facts, s.bits, writeback).valid {
      NotedCovers(a, s.facts, s.bits, writeback, entry, current);
    }
    var out := Recorded(s, key, writeback);
    PositionStays(s.accesses, out, key);
    assert out[i] == Noted(a, s.facts, s.bits, writeback);
    assert Position(out, key) == i;
  }

  lemma RecordedKeeps(s: Analysis, key: Key, writeback: bool, other: Key, entry: seq<Word>, ea: Word, offset: Word)
    requires Shaped(s) && AllSane(s) && |entry| == 16 && Covered(s.accesses, other, entry, ea, offset)
    ensures Covered(Recorded(s, key, writeback), other, entry, ea, offset)
  {
    hide Noted, Formed, Sane;
    var i := Position(s.accesses, key);
    PositionStays(s.accesses, Recorded(s, key, writeback), other);
    if i < |s.accesses| && other == key && Noted(s.accesses[i], s.facts, s.bits, writeback).valid {
      NotedKeeps(s.accesses[i], s.facts, s.bits, writeback, entry, ea);
    }
  }

  /** A key keeps its place when the list only grows and keeps its keys. */
  lemma PositionStays(before: seq<Access>, after: seq<Access>, key: Key)
    requires |before| <= |after| && forall k :: 0 <= k < |before| ==> after[k].key == before[k].key
    ensures Position(before, key) < |before| ==> Position(after, key) == Position(before, key)
    ensures Position(before, key) == |before| ==> Position(after, key) >= |before|
  {
    var i, j := Position(before, key), Position(after, key);
    if i < |before| {
      assert after[i].key == key;
    }
    if j < |before| {
      assert before[j].key == key;
    }
  }

  function AnalyseAll(s: Analysis, p: seq<PathStep>): (t: Analysis)
    requires Shaped(s)
    ensures Shaped(t)
    decreases |p|
  {
    if p == [] then s else AnalyseAll(Advance(s, p[0].inst, p[0].key), p[1..])
  }

  /** Only accesses off a general register are recorded. */
  lemma {:induction false} KeysBounded(s: Analysis, p: seq<PathStep>)
    requires Shaped(s) && forall a <- s.accesses :: Bounded(Some(a.key))
    ensures forall a <- AnalyseAll(s, p).accesses :: Bounded(Some(a.key))
    decreases |p|
  {
    hide Noted, BitsAfter, Observed, Shaped;
    if p != [] {
      KeysBounded(Advance(s, p[0].inst, p[0].key), p[1..]);
    }
  }

  /** Later instructions keep an access covered and every access sane. */
  lemma {:induction false} CoveredStays(s: Analysis, p: seq<PathStep>, key: Key, entry: seq<Word>, ea: Word, offset: Word)
    requires Shaped(s) && AllSane(s) && |entry| == 16 && Covered(s.accesses, key, entry, ea, offset)
    ensures AllSane(AnalyseAll(s, p)) && Covered(AnalyseAll(s, p).accesses, key, entry, ea, offset)
    decreases |p|
  {
    hide Advance, AllSane, Covered, Shaped;
    if p != [] {
      AdvanceSane(s, p[0].inst, p[0].key);
      AdvanceCovered(s, p[0].inst, p[0].key, key, entry, ea, offset);
      CoveredStays(Advance(s, p[0].inst, p[0].key), p[1..], key, entry, ea, offset);
    }
  }

  lemma AdvanceCovered(s: Analysis, inst: Instruction, key: Option<Key>, other: Key, entry: seq<Word>, ea: Word, offset: Word)
    requires Shaped(s) && AllSane(s) && |entry| == 16 && Covered(s.accesses, other, entry, ea, offset)
    ensures Covered(Advance(s, inst, key).accesses, other, entry, ea, offset)
  {
    hide AllSane, Covered, Recorded, BitsAfter, Observed;
    if Bounded(key) {
      RecordedKeeps(s, key.value, inst.writeback, other, entry, ea, offset);
    }
  }

  /** Every access formed while the cycle runs, even in a run that leaves after
      it, is bounded by the whole cycle's analysis. */
  lemma {:induction false} AccessCovered(s: Analysis, p: seq<PathStep>, i: nat, entry: seq<Word>, at: seq<seq<Word>>)
    requires i < |p| && |entry| == 16 && Executes(p[..i], at, 0) && Tracks(s, entry, at[0]) && AllSane(s)
    requires Bounded(p[i].key) && Formable(p[i].key.value)
    ensures |at[i]| == 16 && AllSane(AnalyseAll(s, p))
    ensures Covered(AnalyseAll(s, p).accesses, p[i].key.value, entry,
                    EffectiveAddress(p[i].key.value, at[i]), Offset(p[i].key.value, at[i]))
    decreases |p|
  {
    hide Tracks, AllSane, Covered, Advance, EffectiveAddress, Offset, Shaped;
    AdvanceSane(s, p[0].inst, p[0].key) by { TracksShape(s, entry, at[0]); }
    TracksShape(s, entry, at[0]);
    if i == 0 {
      FirstCovered(s, p[0].inst, p[0].key.value, entry, at[0]);
      CoveredStays(Advance(s, p[0].inst, p[0].key), p[1..], p[0].key.value, entry,
                   EffectiveAddress(p[0].key.value, at[0]), Offset(p[0].key.value, at[0]));
    } else {
      var head, rest, left := p[..i], at[1..], i - 1;
      assert StepRetires(head, at, 0, 0);
      AdvanceTracks(s, p[0].inst, p[0].key, entry, at[0], at[1]);
      var tail := p[1..][..left];
      forall k: nat | k < |tail|
        ensures StepRetires(tail, rest, 0, k)
      {
        assert StepRetires(head, at, 0, k + 1);
      }
      AccessCovered(Advance(s, p[0].inst, p[0].key), p[1..], left, entry, rest);
    }
  }

  lemma TracksShape(s: Analysis, entry: seq<Word>, current: seq<Word>)
    requires Tracks(s, entry, current)
    ensures Shaped(s) && |current| == 16
  {
  }

  lemma FirstCovered(s: Analysis, inst: Instruction, key: Key, entry: seq<Word>, current: seq<Word>)
    requires |entry| == 16 && Tracks(s, entry, current) && AllSane(s) && Bounded(Some(key)) && Formable(key)
    ensures Covered(Advance(s, inst, Some(key)).accesses, key, entry, EffectiveAddress(key, current), Offset(key, current))
  {
    hide Covered, Recorded, BitsAfter, Observed, EffectiveAddress, Offset, AllSane;
    RecordedCovers(s, key, inst.writeback, entry, current);
  }
}
