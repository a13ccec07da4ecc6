/** Register-controlled shifts specialised by the range of an invariant count.

Host shifts take their count modulo 32 or 64; the guest takes the low byte. Each
specialised body, and each body reused for another range, still produces the
portable value and carry.
 */
module ShiftCountRange {
  import opened Words
  import opened Wrappers
  import opened Isa
  import opened IntegerSemantics
  import opened IndexBounds

  datatype Range = BelowWord | AtLeastWord | Zero | Small | Word32 | Large {
    predicate Precise() {
      !BelowWord? && !AtLeastWord?
    }

    predicate AtLeast() {
      AtLeastWord? || Word32? || Large?
    }

    /** The low byte of the count is in this range. */
    predicate Has(count: Word) {
      var c := count % 256;
      match this
      case BelowWord => c < 32
      case AtLeastWord => c >= 32
      case Zero => c == 0
      case Small => 1 <= c <= 31
      case Word32 => c == 32
      case Large => c > 32
    }

    /** A body without a refined range leaves rotations to the general lowering. */
    predicate Accepts(kind: ShiftKind) {
      Precise() || kind != Ror
    }
  }


  /** LSLV, LSRV, ASRV and RORV on W registers: the count modulo 32. */
  function HostShift(kind: ShiftKind, source: Word, count: int): Word {
    var amount: nat := count % 32;
    match kind
    case Lsl => ShiftLeft(source, amount)
    case Lsr => ShiftRight(source, amount)
    case Asr => ArithmeticRight(source, amount)
    case Ror => RotateRight(source, amount)
  }

  /** LSLV on X registers: the count modulo 64. */
  function HostShiftLong(source: Word, count: int): int {
    var amount: nat := count % 64;
    source * Pow2(amount) % HOST
  }

  /** The carry of doubling a long register. */
  predicate DoublingCarries(x: int) {
    x + x >= HOST
  }

  function BoundedShift(range: Range, kind: ShiftKind, source: Word, count: Word): Word {
    if range.Zero? then source
    else if range.AtLeast() && kind != Ror then
      if kind == Asr then ArithmeticRight(source, 31) else 0
    else HostShift(kind, source, count)
  }

  /** The carry a body publishes: as native C for a dead N, Z and V, or inserted
      into the saved flags. */
  function BoundedCarry(range: Range, kind: ShiftKind, source: Word, count: Word, carryOnly: bool, incoming: bool): bool {
    if range.Zero? then incoming
    else if kind == Ror then TopBit(BoundedShift(range, kind, source, count))
    else if range.Small? then
      if carryOnly then
        DoublingCarries(HostShiftLong(source, if kind == Lsl then Wrap(count + 31) else Wrap(0 - count)))
      else
        HostShift(Lsr, source, if kind == Lsl then Wrap(0 - count) else Wrap(count - 1)) % 2 == 1
    else if kind == Asr || range.Word32? then
      if kind == Lsl then source % 2 == 1 else TopBit(source)
    else false
  }

  /** The residues host shifts use, from the low byte. */
  lemma LowCount(count: Word)
    ensures count % 32 == count % 256 % 32
    ensures count % 256 < 32 ==> Wrap(count + 31) % 64 == count % 256 + 31
    ensures 1 <= count % 256 < 32 ==>
              Wrap(0 - count) % 64 == 64 - count % 256 && Wrap(0 - count) % 32 == 32 - count % 256 &&
              Wrap(count - 1) % 32 == count % 256 - 1
  {
    var h, c := count / 256, count % 256;
    assert count == 256 * h + c && 0 <= h < 0x100_0000;
    DivModUnique(count, 32, 8 * h + c / 32, c % 32);
    if c < 32 {
      DivModUnique(count + 31, 64, 4 * h, c + 31);
    }
    if 1 <= c < 32 {
      NegatedCount(h, c);
      DivModUnique(count - 1, 32, 8 * h, c - 1);
    }
  }

  lemma NegatedCount(h: int, c: int)
    requires 0 <= h < 0x100_0000 && 1 <= c < 32
    ensures Wrap(-(256 * h + c)) % 64 == 64 - c && Wrap(-(256 * h + c)) % 32 == 32 - c
  {
    var n := WORD - (256 * h + c);
    DivModUnique(-(256 * h + c), WORD, -1, n);
    DivModUnique(n, 64, 0x400_0000 - 4 * h - 1, 64 - c);
    DivModUnique(n, 32, 0x800_0000 - 8 * h - 1, 32 - c);
  }

  /** Shifting by nothing, in each host form. */
  lemma HostShiftZero(kind: ShiftKind, source: Word)
    ensures HostShift(kind, source, 0) == source
  {
    assert Pow2(0) == 1;
    if kind == Ror {
      Pow2Word();
      RotateParts(source, 0);
    }
  }

  lemma LowBitOfShift(source: Word, k: nat)
    requires k < 32
    ensures (ShiftRight(source, k) % 2 == 1) == BitSet(source, k)
  {
  }

  /** The bit that a long left shift brings to the top. */
  lemma TopAfterShift(source: Word, k: nat)
    requires 32 <= k <= 63
    ensures DoublingCarries(source * Pow2(k) % HOST) == BitSet(source, 63 - k)
  {
    Pow2Word();
    Pow2Add(32, 32);
    Pow2Add(k, 64 - k);
    assert Pow2(64 - k) == 2 * Pow2(63 - k);
    hide Pow2;
    TopOfProduct(source, Pow2(k), Pow2(63 - k));
  }

  lemma TopOfProduct(v: nat, p: nat, h: nat)
    requires p >= 1 && h >= 1 && p * (2 * h) == HOST
    ensures DoublingCarries(v * p % HOST) == (v / h % 2 == 1)
  {
    var q, r := v / (2 * h), v % (2 * h);
    assert v == q * (2 * h) + r;
    ProductRemainder(v, p, h, q, r);
    HalfBit(v, h, q, r);
    TopHalf(r, p, h);
  }

  lemma ProductRemainder(v: nat, p: nat, h: nat, q: nat, r: nat)
    requires p >= 1 && h >= 1 && p * (2 * h) == HOST && v == q * (2 * h) + r && r < 2 * h
    ensures v * p % HOST == r * p
  {
    Distribute(q * (2 * h), r, p);
    Regroup(q, 2 * h, p);
    assert 2 * h * p == p * (2 * h);
    Scale(2 * h - 1, r, p);
    Distribute(2 * h - 1, 1, p);
    DivModUnique(v * p, HOST, q, r * p);
  }

  lemma TopHalf(r: nat, p: nat, h: nat)
    requires p >= 1 && h >= 1 && p * (2 * h) == HOST && r < 2 * h
    ensures DoublingCarries(r * p) <==> r >= h
  {
    assert HOST == 2 * (h * p);
    if r >= h {
      Scale(r, h, p);
    } else {
      Scale(h - 1, r, p);
      Distribute(h - 1, 1, p);
    }
  }

  lemma HalfBit(v: nat, h: nat, q: nat, r: nat)
    requires h >= 1 && v == q * (2 * h) + r && r < 2 * h
    ensures v / h % 2 == (if r >= h then 1 else 0)
  {
    if r >= h {
      assert v == (2 * q + 1) * h + (r - h) by {
        Distribute(2 * q, 1, h);
        assert 2 * q * h == q * (2 * h);
      }
      DivModUnique(v, h, 2 * q + 1, r - h);
    } else {
      assert v == 2 * q * h + r by {
        assert 2 * q * h == q * (2 * h);
      }
      DivModUnique(v, h, 2 * q, r);
    }
  }

  /** Sign fill after 31 places is the portable result for any longer count. */
  lemma LongArithmetic(source: Word)
    ensures ArithmeticRight(source, 31) == if TopBit(source) then WORD - 1 else 0
  {
    Pow2Word();
    hide Pow2;
    assert Signed(source) / HALF == if TopBit(source) then -1 else 0;
  }

  lemma FullRotation(source: Word, count: Word)
    ensures count % 256 != 0 ==>
              RotateRight(source, count % 32) == Shift(source, Ror, count % 256, false, true).value
  {
    LowCount(count);
  }

  lemma HostShiftLow(kind: ShiftKind, source: Word, count: Word)
    ensures HostShift(kind, source, count) == HostShift(kind, source, count % 256)
  {
    LowCount(count);
  }

  /** A host shift by less than a word, or any rotation, is the portable one. */
  lemma HostShiftExact(kind: ShiftKind, source: Word, c: nat, carry: bool)
    requires c < 256 && (c < 32 || kind == Ror)
    ensures HostShift(kind, source, c) == Shift(source, kind, c, carry, true).value
  {
    if c == 0 {
      HostShiftZero(kind, source);
    }
    hide ShiftLeft, ShiftRight, ArithmeticRight, RotateRight, BitSet, TopBit, Pow2;
  }

  lemma LongShift(kind: ShiftKind, source: Word, c: nat, carry: bool)
    requires 32 <= c < 256 && kind != Ror
    ensures Shift(source, kind, c, carry, true).value == if kind == Asr then ArithmeticRight(source, 31) else 0
  {
    LongArithmetic(source);
    hide ShiftLeft, ShiftRight, ArithmeticRight, RotateRight, BitSet, TopBit, Pow2;
  }

  /** Every body computes the portable value for the counts of its range. */
  lemma ValueExact(range: Range, kind: ShiftKind, source: Word, count: Word, carry: bool)
    requires range.Has(count) && range.Accepts(kind)
    ensures BoundedShift(range, kind, source, count) == Shift(source, kind, count % 256, carry, true).value
  {
    hide Shift, HostShift, ArithmeticRight;
    HostShiftLow(kind, source, count);
    var c := count % 256;
    if c < 32 || kind == Ror {
      HostShiftExact(kind, source, c, carry);
    } else {
      LongShift(kind, source, c, carry);
    }
    if range.Zero? {
      HostShiftZero(kind, source);
    }
  }

  lemma SmallCarry(kind: ShiftKind, source: Word, count: Word, carryOnly: bool, incoming: bool)
    requires Small.Has(count) && kind != Ror
    ensures BoundedCarry(Small, kind, source, count, carryOnly, incoming) == Shift(source, kind, count % 256, incoming, true).carry
  {
    hide ShiftLeft, ShiftRight, ArithmeticRight, RotateRight, BitSet, TopBit, Pow2, DoublingCarries;
    LowCount(count);
    var c := count % 256;
    var bit := if kind == Lsl then 32 - c else c - 1;
    if carryOnly {
      TopAfterShift(source, 63 - bit);
    } else {
      LowBitOfShift(source, bit);
    }
  }

  /** Every refined body publishes the portable carry for the counts of its range. */
  lemma CarryExact(range: Range, kind: ShiftKind, source: Word, count: Word, carryOnly: bool, incoming: bool)
    requires range.Has(count) && range.Precise()
    ensures BoundedCarry(range, kind, source, count, carryOnly, incoming) ==
            Shift(source, kind, count % 256, incoming, true).carry
  {
    if range.Small? && kind != Ror {
      SmallCarry(kind, source, count, carryOnly, incoming);
    } else if kind == Ror && !range.Zero? {
      FullRotation(source, count);
      hide RotateRight, TopBit;
    } else {
      hide ShiftLeft, ShiftRight, ArithmeticRight, RotateRight, BitSet, TopBit, Pow2;
    }
  }

  /** The range each of the four bodies was compiled for, given every kind of shift
      that uses the count: rotations have one rule for nonzero counts, and
      arithmetic shifts and rotations one rule from one word up. */
  function BodyRange(body: nat, kinds: set<ShiftKind>): (r: Range)
    requires body < 4
    ensures r.Precise()
  {
    var word := if kinds == {Ror} then Small else Word32;
    if body == 0 then Zero
    else if body == 1 then Small
    else if body == 2 then word
    else if Lsl !in kinds && Lsr !in kinds then word
    else Large
  }

  /** The entry code: low byte zero, below 32, equal, above. */
  function Selected(count: Word): nat {
    var c := count % 256;
    if c == 0 then 0 else if c < 32 then 1 else if c == 32 then 2 else 3
  }

  /** A body compiled for a shorter range is right for the counts it is reused for. */
  lemma ReusedValue(kind: ShiftKind, source: Word, count: Word, carry: bool)
    requires count % 256 >= 32
    ensures BoundedShift(Small, Ror, source, count) == Shift(source, Ror, count % 256, carry, true).value
    ensures kind == Asr || kind == Ror ==>
              BoundedShift(Word32, kind, source, count) == Shift(source, kind, count % 256, carry, true).value &&
              forall carryOnly: bool :: BoundedCarry(Word32, kind, source, count, carryOnly, carry) == Shift(source, kind, count % 256, carry, true).carry
    ensures forall carryOnly: bool :: BoundedCarry(Small, Ror, source, count, carryOnly, carry) == Shift(source, Ror, count % 256, carry, true).carry
  {
    LowCount(count);
    LongArithmetic(source);
    hide ShiftLeft, ShiftRight, ArithmeticRight, RotateRight, BitSet, TopBit, Pow2;
  }

  /** Four-way dispatch: for every count, and every shift of the cycle, the body
      entered computes the portable value and carry. */
  lemma FourWayExact(kinds: set<ShiftKind>, kind: ShiftKind, source: Word, count: Word, carryOnly: bool, incoming: bool)
    requires kind in kinds
    ensures var range := BodyRange(Selected(count), kinds);
            var expected := Shift(source, kind, count % 256, incoming, true);
            BoundedShift(range, kind, source, count) == expected.value &&
            BoundedCarry(range, kind, source, count, carryOnly, incoming) == expected.carry
  {
    hide BoundedShift, BoundedCarry, Shift;
    var range := BodyRange(Selected(count), kinds);
    if range.Has(count) {
      ValueExact(range, kind, source, count, incoming);
      CarryExact(range, kind, source, count, carryOnly, incoming);
    } else {
      ReusedValue(kind, source, count, incoming);
      assert kind == Ror || kind == Asr;
    }
  }

  /** Bits 5 to 7 of the count. */
  lemma HighBits(count: Word)
    ensures count / 32 % 8 == 0 <==> count % 256 < 32
  {
    var h, c := count / 256, count % 256;
    assert count == 256 * h + c;
    DivModUnique(count, 32, 8 * h + c / 32, c % 32);
    DivModUnique(8 * h + c / 32, 8, h, c / 32);
  }

  /** Two-way dispatch on bits 5 to 7: the value-only bodies. */
  lemma TwoWayExact(kind: ShiftKind, source: Word, count: Word, carry: bool)
    requires kind != Ror
    ensures var range := if count / 32 % 8 == 0 then BelowWord else AtLeastWord;
            BoundedShift(range, kind, source, count) == Shift(source, kind, count % 256, carry, true).value
  {
    hide BoundedShift, Shift;
    HighBits(count);
    if count / 32 % 8 == 0 {
      ValueExact(BelowWord, kind, source, count, carry);
    } else {
      ValueExact(AtLeastWord, kind, source, count, carry);
    }
  }

  /** The bodies that are kept: those that name themselves. */
  function Kept(canonical: seq<nat>): set<nat> {
    set i: nat | i < |canonical| && canonical[i] == i
  }

  lemma KeptGrows(canonical: seq<nat>, next: nat)
    requires next <= |canonical|
    ensures Kept(canonical + [next]) == Kept(canonical) + (if next == |canonical| then {next} else {})
    ensures |Kept(canonical + [next])| == |Kept(canonical)| + (if next == |canonical| then 1 else 0)
  {
    assert Kept(canonical + [next]) == Kept(canonical) + (if next == |canonical| then {next} else {});
  }

  /** Body i is represented by an equal body no later than it that names itself. */
  ghost predicate Represented<T>(traces: seq<T>, canonical: seq<nat>, i: nat)
    requires i < |canonical| <= |traces|
  {
    var c := canonical[i];
    c <= i && traces[c] == traces[i] && canonical[c] == c
  }

  lemma RepresentedStays<T>(traces: seq<T>, canonical: seq<nat>, next: nat, i: nat)
    requires |canonical| < |traces| && i <= |canonical|
    requires i < |canonical| ==> Represented(traces, canonical, i)
    requires i == |canonical| ==>
               next == i || (next < i && traces[next] == traces[i] && canonical[next] == next)
    ensures Represented(traces, canonical + [next], i)
  {
  }

  /** Equal bodies share one copy, equal to each of them, and unique counts the
      bodies that are kept. */
  method Canonical<T(==)>(traces: seq<T>) returns (canonical: seq<nat>, unique: nat)
    ensures |canonical| == |traces| && unique == |Kept(canonical)|
    ensures forall i: nat :: i < |traces| ==> Represented(traces, canonical, i)
    ensures forall i: nat, j: nat :: j < i < |traces| && traces[i] == traces[j] ==> canonical[i] == canonical[j]
  {
    canonical, unique := [], 0;
    assert Kept(canonical) == {};
    hide Represented, Kept;
    while |canonical| < |traces|
      invariant |canonical| <= |traces| && unique == |Kept(canonical)|
      invariant forall i: nat :: i < |canonical| ==> Represented(traces, canonical, i)
      invariant forall i: nat, j: nat :: j < i < |canonical| && traces[i] == traces[j] ==> canonical[i] == canonical[j]
      decreases |traces| - |canonical|
    {
      var next := Representative(traces, canonical);
      KeptGrows(canonical, next);
      unique := unique + (if next == |canonical| then 1 else 0);
      forall i: nat | i <= |canonical|
        ensures Represented(traces, canonical + [next], i)
      {
        RepresentedStays(traces, canonical, next, i);
      }
      canonical := canonical + [next];
    }
  }

  /** The representative of the first equal body, or the next body itself. */
  method Representative<T(==)>(traces: seq<T>, canonical: seq<nat>) returns (next: nat)
    requires |canonical| < |traces|
    requires forall i: nat :: i < |canonical| ==> Represented(traces, canonical, i)
    requires forall i: nat, j: nat :: j < i < |canonical| && traces[i] == traces[j] ==> canonical[i] == canonical[j]
    ensures next <= |canonical|
    ensures next < |canonical| ==> traces[next] == traces[|canonical|] && canonical[next] == next
    ensures forall j: nat :: j < |canonical| && traces[j] == traces[|canonical|] ==> canonical[j] == next
  {
    var i, j: nat := |canonical|, 0;
    while j < i && traces[j] != traces[i]
      invariant j <= i && forall k: nat :: k < j ==> traces[k] != traces[i]
    {
      j := j + 1;
    }
    assert j < i ==> Represented(traces, canonical, j);
    next := if j < i then canonical[j] else i;
  }

  /** The unspecialised lowering: masks the count, then branches. */
  function GeneralShift(kind: ShiftKind, source: Word, count: Word, carryOnly: bool, incoming: bool): ShiftResult {
    var c: Word := count % 256;
    if c == 0 then ShiftResult(source, incoming)
    else if kind == Ror then ShiftResult(HostShift(Ror, source, c), TopBit(HostShift(Ror, source, c)))
    else if c / 32 == 0 then ShiftResult(HostShift(kind, source, c), BoundedCarry(Small, kind, source, c, carryOnly, incoming))
    else if kind == Asr then ShiftResult(ArithmeticRight(source, 31), TopBit(source))
    else ShiftResult(0, c == 32 && (if kind == Lsl then source % 2 == 1 else TopBit(source)))
  }

  lemma GeneralExact(kind: ShiftKind, source: Word, count: Word, carryOnly: bool, incoming: bool)
    ensures GeneralShift(kind, source, count, carryOnly, incoming) == Shift(source, kind, count % 256, incoming, true)
  {
    hide HostShift, ShiftLeft, ShiftRight, ArithmeticRight, RotateRight, BitSet, TopBit, Pow2, BoundedCarry;
    var c: Word := count % 256;
    assert c % 256 == c && (c / 32 == 0 <==> c < 32);
    if c < 32 || kind == Ror {
      HostShiftExact(kind, source, c, incoming);
      if 0 < c < 32 && kind != Ror {
        SmallCarry(kind, source, c, carryOnly, incoming);
      }
    } else {
      LongShift(kind, source, c, incoming);
      LongArithmetic(source);
    }
  }

  /** One instruction of a candidate cycle; live carry as the flag search reports it. */
  datatype Step = Step(inst: Instruction, carryLive: bool)

  datatype Survey = Survey(candidates: set<Reg>, written: set<Reg>, kinds: map<Reg, set<ShiftKind>>, carryKinds: map<Reg, set<ShiftKind>>)

  const NO_KINDS: map<Reg, set<ShiftKind>> := map[]

  function KindsOf(m: map<Reg, set<ShiftKind>>, r: Reg): set<ShiftKind> {
    if r in m then m[r] else {}
  }

  /** The survey of a cycle of data-processing instructions. */
  function Surveyed(p: seq<Step>, includeCarry: bool): Survey {
    if p == [] then Survey({}, {}, NO_KINDS, NO_KINDS)
    else
      var before, s := Surveyed(p[..|p| - 1], includeCarry), p[|p| - 1];
      var inst := s.inst;
      var written := if 8 <= inst.opcode <= 11 then before.written else before.written + {inst.rd};
      if !inst.registerShift || inst.rs >= 15 then before.(written := written)
      else
        var carry := CarryNeeded(s);
        var taken := (!carry || includeCarry) && (inst.shift != Ror || carry);
        Survey(if taken then before.candidates + {inst.rs} else before.candidates, written,
               before.kinds[inst.rs := KindsOf(before.kinds, inst.rs) + {inst.shift}],
               if taken && carry then before.carryKinds[inst.rs := KindsOf(before.carryKinds, inst.rs) + {inst.shift}]
               else before.carryKinds)
  }

  /** The lowest register of a set, as a count of trailing zeros finds it. */
  function Lowest(s: set<Reg>, from: nat): (lowest: Option<Reg>)
    requires from <= 16
    ensures lowest.Some? ==> lowest.value in s && forall r <- s :: r >= from ==> lowest.value <= r
    ensures lowest.None? ==> forall r <- s :: r < from
    decreases 16 - from
  {
    if from == 16 then None else if from in s then Some(from) else Lowest(s, from + 1)
  }

  datatype Count = Count(reg: Reg, carryKinds: set<ShiftKind>, kinds: set<ShiftKind>)

  /** What the closing branch selects: a linking branch writes r14 first. */
  function Picked(p: seq<Step>, branch: Instruction, includeCarry: bool): Option<Count> {
    var survey := Surveyed(p, includeCarry);
    var left := survey.candidates - (survey.written + (if branch.link then {14} else {}));
    match Lowest(left, 0)
    case None => None
    case Some(reg) => Some(Count(reg, KindsOf(survey.carryKinds, reg), KindsOf(survey.kinds, reg)))
  }

  /** A register that shifts something the specialised bodies could improve. */
  predicate Worthwhile(s: Step, reg: Reg, includeCarry: bool) {
    s.inst.registerShift && s.inst.rs == reg && reg < 15 &&
    (!CarryNeeded(s) || includeCarry) && (s.inst.shift != Ror || CarryNeeded(s))
  }

  predicate CarryNeeded(s: Step) {
    IsLogical(s.inst.opcode) && s.inst.setFlags && s.carryLive
  }

  /** The selected count register is written nowhere in the cycle, its closing
      branch included, so its entry classification holds on every pass. It is the
      lowest such register of those worth specialising, and the kinds cover every
      shift by it, the carry kinds every one whose carry is needed. */
  lemma SurveyCovers(p: seq<Step>, branch: Instruction, includeCarry: bool)
    requires branch.kind.Branch? && forall s <- p :: s.inst.kind.DataProcessing?
    ensures var picked := Picked(p, branch, includeCarry);
            && (picked.Some? ==> Covers(p, branch, includeCarry, picked.value))
            && (forall r: Reg, i: nat :: i < |p| && Worthwhile(p[i], r, includeCarry) && Unwritten(p, branch, r) ==>
                  picked.Some? && picked.value.reg <= r)
  {
    hide Lowest, Surveyed, Worthwhile, CarryNeeded, KindsOf, WrittenRegisters, Unwritten, Covers;
    var survey := Surveyed(p, includeCarry);
    var left := survey.candidates - (survey.written + (if branch.link then {14} else {}));
    forall r: Reg, i: nat | i < |p| && Worthwhile(p[i], r, includeCarry) && Unwritten(p, branch, r)
      ensures r in left
    {
      SurveyOffers(p, branch, includeCarry, r, i);
    }
    if Lowest(left, 0).Some? {
      CandidateCovers(p, branch, includeCarry, Lowest(left, 0).value);
    }
  }

  lemma SurveyOffers(p: seq<Step>, branch: Instruction, includeCarry: bool, r: Reg, i: nat)
    requires branch.kind.Branch? && forall s <- p :: s.inst.kind.DataProcessing?
    requires i < |p| && Worthwhile(p[i], r, includeCarry) && Unwritten(p, branch, r)
    ensures r in Surveyed(p, includeCarry).candidates - (Surveyed(p, includeCarry).written + (if branch.link then {14} else {}))
  {
    hide Surveyed, Worthwhile, CarryNeeded;
    SurveyGrows(p, includeCarry, i, r);
    SurveyWrites(p, includeCarry, r);
  }

  lemma CandidateCovers(p: seq<Step>, branch: Instruction, includeCarry: bool, reg: Reg)
    requires branch.kind.Branch? && forall s <- p :: s.inst.kind.DataProcessing?
    requires var survey := Surveyed(p, includeCarry);
             reg in survey.candidates - (survey.written + (if branch.link then {14} else {}))
    ensures var survey := Surveyed(p, includeCarry);
            Covers(p, branch, includeCarry, Count(reg, KindsOf(survey.carryKinds, reg), KindsOf(survey.kinds, reg)))
  {
    hide Surveyed, Worthwhile, CarryNeeded, KindsOf;
    var survey := Surveyed(p, includeCarry);
    SurveyUses(p, includeCarry, reg);
    forall i: nat | i < |p|
      ensures reg !in WrittenRegisters(p[i].inst)
      ensures p[i].inst.registerShift && p[i].inst.rs == reg && reg < 15 ==>
                p[i].inst.shift in KindsOf(survey.kinds, reg) &&
                (CarryNeeded(p[i]) && includeCarry ==> p[i].inst.shift in KindsOf(survey.carryKinds, reg))
    {
      SurveyGrows(p, includeCarry, i, reg);
    }
  }

  /** No instruction of the cycle writes the register. */
  ghost predicate Unwritten(p: seq<Step>, branch: Instruction, r: Reg) {
    r !in WrittenRegisters(branch) && forall i: nat :: i < |p| ==> r !in WrittenRegisters(p[i].inst)
  }

  ghost predicate Covers(p: seq<Step>, branch: Instruction, includeCarry: bool, count: Count) {
    && Unwritten(p, branch, count.reg)
    && (exists i: nat :: i < |p| && Worthwhile(p[i], count.reg, includeCarry))
    && forall i: nat :: i < |p| && p[i].inst.registerShift && p[i].inst.rs == count.reg && count.reg < 15 ==>
         p[i].inst.shift in count.kinds && (CarryNeeded(p[i]) && includeCarry ==> p[i].inst.shift in count.carryKinds)
  }

  lemma {:induction false} SurveyGrows(p: seq<Step>, includeCarry: bool, i: nat, reg: Reg)
    requires i < |p| && (forall s <- p :: s.inst.kind.DataProcessing?)
    ensures !(8 <= p[i].inst.opcode <= 11) ==> p[i].inst.rd in Surveyed(p, includeCarry).written
    ensures p[i].inst.registerShift && p[i].inst.rs == reg && reg < 15 ==>
              p[i].inst.shift in KindsOf(Surveyed(p, includeCarry).kinds, reg) &&
              (CarryNeeded(p[i]) && includeCarry ==> p[i].inst.shift in KindsOf(Surveyed(p, includeCarry).carryKinds, reg))
    ensures Worthwhile(p[i], reg, includeCarry) ==> reg in Surveyed(p, includeCarry).candidates
  {
    hide IsLogical;
    var last := |p| - 1;
    if i < last {
      assert forall s <- p[..last] :: s in p;
      SurveyGrows(p[..last], includeCarry, i, reg);
    }
  }

  /** Only instructions that write a register are surveyed as writing it. */
  lemma {:induction false} SurveyWrites(p: seq<Step>, includeCarry: bool, reg: Reg)
    requires forall s <- p :: s.inst.kind.DataProcessing?
    requires forall i: nat :: i < |p| ==> reg !in WrittenRegisters(p[i].inst)
    ensures reg !in Surveyed(p, includeCarry).written
  {
    hide IsLogical;
    if p != [] {
      var front := p[..|p| - 1];
      assert forall s <- front :: s in p;
      SurveyWrites(front, includeCarry, reg);
      assert reg !in WrittenRegisters(p[|p| - 1].inst);
    }
  }

  /** Every candidate is the count of some shift worth specialising. */
  lemma {:induction false} SurveyUses(p: seq<Step>, includeCarry: bool, reg: Reg)
    requires reg in Surveyed(p, includeCarry).candidates
    ensures exists i: nat :: i < |p| && Worthwhile(p[i], reg, includeCarry)
  {
    hide IsLogical;
    var front, last := p[..|p| - 1], |p| - 1;
    if Worthwhile(p[last], reg, includeCarry) {
    } else {
      SurveyUses(front, includeCarry, reg);
      var i: nat :| i < |front| && Worthwhile(front[i], reg, includeCarry);
      assert Worthwhile(p[i], reg, includeCarry);
    }
  }
}
