/** Halfword, word-by-halfword and dual halfword multiplies: host programs over the
    register file against the portable wide sums with sticky Q. */
module HalfwordMultiply {
  import opened Words
  import opened Isa
  import opened SaturatingArithmetic

  datatype Multiply = Halfword | HalfwordLong | WordHalfword | Dual | DualSubtract | DualLong | DualLongSubtract

  /** Operand fields: rd and rn as destinations or accumulators, rm and rs as sources. */
  datatype Fields = Fields(op: Multiply, rd: Reg, rn: Reg, rm: Reg, rs: Reg,
                           upperFirst: bool, upperSecond: bool, accumulate: bool, exchange: bool)
  {
    /** Long forms write a pair and take its old value as their accumulator. */
    predicate WritesPair() {
      op.HalfwordLong? || op.DualLong? || op.DualLongSubtract?
    }
  }

  datatype State = State(regs: seq<Word>, q: bool)

  /** The portable product, before any accumulator. */
  function Product(f: Fields, first: Word, second: Word): int {
    match f.op
    case WordHalfword => Signed(first) * Half(second, f.upperSecond) / 0x1_0000
    case Halfword => Half(first, f.upperFirst) * Half(second, f.upperSecond)
    case HalfwordLong => Half(first, f.upperFirst) * Half(second, f.upperSecond)
    case _ =>
      var a := Half(first, false) * Half(second, f.exchange);
      var b := Half(first, true) * Half(second, !f.exchange);
      if f.op.DualSubtract? || f.op.DualLongSubtract? then a - b else a + b
  }

  /** The portable evaluation: Q describes the complete wide sum. */
  function Reference(f: Fields, s: State): State
    requires |s.regs| == 16
  {
    var product := Product(f, s.regs[f.rm], s.regs[f.rs]);
    var low, high := s.regs[f.rd], s.regs[f.rn];
    if f.WritesPair() then
      var wide := (product + high * WORD + low) % HOST;
      State(s.regs[f.rd := Wrap(wide)][f.rn := Wrap(wide / WORD)], s.q)
    else
      var sum := product + (if f.accumulate then Signed(high) else 0);
      var tested := f.accumulate || f.op.Dual? || f.op.DualSubtract?;
      State(s.regs[f.rd := Wrap(sum)], s.q || (tested && !(-HALF <= sum < HALF)))
  }

  /** Addition of W registers with the overflow condition. */
  function AddsOverflows(a: Word, b: Word): bool {
    var sum := Wrap(a + b);
    (a >= HALF) == (b >= HALF) && (sum >= HALF) != (a >= HALF)
  }

  /** finish_word: add the accumulator and merge VS into Q, or just move. */
  function FinishWord(f: Fields, s: State, w17: Word): State
    requires |s.regs| == 16
  {
    if f.accumulate then
      var rn := s.regs[f.rn];
      State(s.regs[f.rd := Wrap(w17 + rn)], s.q || AddsOverflows(w17, rn))
    else s.(regs := s.regs[f.rd := w17])
  }

  /** The pair addition: both sources and the old pair are read before any write. */
  function FinishPair(f: Fields, s: State, product: int): State
    requires |s.regs| == 16
  {
    var pair := s.regs[f.rd] + s.regs[f.rn] * WORD;
    var x := (product + pair) % HOST;
    var upper := x / WORD;
    s.(regs := s.regs[f.rd := Wrap(x)][f.rn := Wrap(upper)])
  }

  /** SMULL of two swapped or unswapped halves; each lane product is sign extended. */
  function LaneProduct(a: int, b: int): int {
    Signed(Wrap(a * b))
  }

  function Host(f: Fields, s: State): State
    requires |s.regs| == 16
  {
    var rm, rs := s.regs[f.rm], s.regs[f.rs];
    match f.op
    case WordHalfword => FinishWord(f, s, Wrap(Signed(rm) * Half(rs, f.upperSecond) / 0x1_0000))
    case HalfwordLong => FinishPair(f, s, Half(rm, f.upperFirst) * Half(rs, f.upperSecond))
    case Halfword =>
      var w17 := Wrap(Half(rm, f.upperFirst) * Half(rs, f.upperSecond));
      if f.accumulate then FinishWord(f, s, w17) else s.(regs := s.regs[f.rd := w17])
    case _ =>
      var d1 := if f.exchange then rs / 0x1_0000 + rs % 0x1_0000 * 0x1_0000 else rs;
      var x16 := LaneProduct(Half(rm, false), Half(d1, false));
      var x17 := LaneProduct(Half(rm, true), Half(d1, true));
      var subtract := f.op.DualSubtract? || f.op.DualLongSubtract?;
      var combined := if subtract then x16 - x17 else x16 + x17;
      if f.WritesPair() then FinishPair(f, s, combined)
      else
        var sum := if f.accumulate then combined + Signed(s.regs[f.rn]) else combined;
        var tested := !subtract || f.accumulate;
        State(s.regs[f.rd := Wrap(sum)], s.q || (tested && sum != ToSigned(sum)))
  }

  lemma HalfBounds(w: Word, upper: bool)
    ensures -0x8000 <= Half(w, upper) < 0x8000
  {
  }

  /** A product of halves is a signed word, with room to spare at the negative end. */
  lemma HalfProduct(a: int, b: int)
    requires -0x8000 <= a < 0x8000 && -0x8000 <= b < 0x8000
    ensures -0x3fff_8000 <= a * b <= 0x4000_0000
  {
    if a >= 0 {
      Scale(b, -0x8000, a);
      Scale(0x7fff, b, a);
      assert b * a == a * b && a * 0x8000 <= 0x3fff_8000;
    } else {
      Scale(b, -0x8000, -a);
      Scale(0x7fff, b, -a);
      NegatedScale(a, b);
    }
  }

  lemma NegatedScale(a: int, b: int)
    ensures b * -a == -(a * b) && -0x8000 * -a == 0x8000 * a && 0x7fff * -a == -(0x7fff * a)
  {
  }

  lemma SignedWrap(x: int)
    requires -HALF <= x < HALF
    ensures Signed(Wrap(x)) == x && ToSigned(x) == x
  {
  }

  /** Overflow of a word addition is the wide sum leaving the signed range. */
  lemma OverflowExact(x: int, b: Word)
    requires -HALF <= x < HALF
    ensures AddsOverflows(Wrap(x), b) <==> !(-HALF <= x + Signed(b) < HALF)
    ensures Wrap(Wrap(x) + b) == Wrap(x + Signed(b))
  {
  }

  lemma OutOfRange(sum: int)
    ensures sum != ToSigned(sum) <==> !(-HALF <= sum < HALF)
  {
  }

  /** The word by halfword product, shifted right by sixteen, is a signed word. */
  lemma WordProduct(w: Word, h: int)
    requires -0x8000 <= h < 0x8000
    ensures -HALF <= Signed(w) * h / 0x1_0000 < HALF
  {
    var x := Signed(w);
    if h >= 0 {
      Scale(x, -HALF, h);
      Scale(HALF, x, h);
      assert -0x4000_0000_0000 <= x * h <= 0x4000_0000_0000;
    } else {
      Scale(x, -HALF, -h);
      Scale(HALF, x, -h);
      assert x * -h == -(x * h);
      assert -0x4000_0000_0000 <= x * h <= 0x4000_0000_0000;
    }
    ShiftedRange(x * h);
  }

  lemma ShiftedRange(p: int)
    requires -0x4000_0000_0000 <= p <= 0x4000_0000_0000
    ensures -HALF <= p / 0x1_0000 < HALF
  {
  }

  lemma Exchanged(w: Word)
    ensures var d := w / 0x1_0000 + w % 0x1_0000 * 0x1_0000;
            0 <= d < WORD && Half(d, false) == Half(w, true) && Half(d, true) == Half(w, false)
  {
    var d := w / 0x1_0000 + w % 0x1_0000 * 0x1_0000;
    DivModUnique(d, 0x1_0000, w % 0x1_0000, w / 0x1_0000);
  }

  /** The dual products as the host forms them are the portable ones; a difference of
      two never leaves the signed word, which is why its test is skipped. */
  lemma DualProducts(f: Fields, rm: Word, rs: Word)
    ensures var d1 := if f.exchange then rs / 0x1_0000 + rs % 0x1_0000 * 0x1_0000 else rs;
            var a, b := Half(rm, false) * Half(rs, f.exchange), Half(rm, true) * Half(rs, !f.exchange);
            && 0 <= d1 < WORD
            && LaneProduct(Half(rm, false), Half(d1, false)) == a && LaneProduct(Half(rm, true), Half(d1, true)) == b
            && -HALF <= a - b < HALF && -HALF <= a + b <= HALF
  {
    Exchanged(rs);
    HalfBounds(rm, false);
    HalfBounds(rm, true);
    HalfBounds(rs, false);
    HalfBounds(rs, true);
    hide Half;
    var a, b := Half(rm, false) * Half(rs, f.exchange), Half(rm, true) * Half(rs, !f.exchange);
    HalfProduct(Half(rm, false), Half(rs, f.exchange));
    HalfProduct(Half(rm, true), Half(rs, !f.exchange));
    SignedWrap(a);
    SignedWrap(b);
  }

  lemma SinglesExact(f: Fields, s: State)
    requires |s.regs| == 16 && (f.op.Halfword? || f.op.HalfwordLong? || f.op.WordHalfword?)
    ensures Host(f, s) == Reference(f, s)
  {
    var rm, rs, rn := s.regs[f.rm], s.regs[f.rs], s.regs[f.rn];
    HalfBounds(rm, f.upperFirst);
    HalfBounds(rs, f.upperSecond);
    hide Half;
    var product := Product(f, rm, rs);
    if f.op.WordHalfword? {
      WordProduct(rm, Half(rs, f.upperSecond));
    } else {
      HalfProduct(Half(rm, f.upperFirst), Half(rs, f.upperSecond));
    }
    assert -HALF <= product < HALF;
    OverflowExact(product, rn);
    hide AddsOverflows, Wrap, Signed, Product;
  }

  lemma DualsExact(f: Fields, s: State)
    requires |s.regs| == 16 && !(f.op.Halfword? || f.op.HalfwordLong? || f.op.WordHalfword?)
    ensures Host(f, s) == Reference(f, s)
  {
    hide Half, LaneProduct, Wrap, Signed, ToSigned;
    var rm, rs, rn := s.regs[f.rm], s.regs[f.rs], s.regs[f.rn];
    DualProducts(f, rm, rs);
    var combined := Product(f, rm, rs);
    OutOfRange(combined);
    OutOfRange(combined + Signed(rn));
  }

  /** Every halfword multiply, whatever registers coincide: same registers, same Q. */
  lemma MultiplyExact(f: Fields, s: State)
    requires |s.regs| == 16
    ensures Host(f, s) == Reference(f, s)
  {
    hide Host, Reference;
    if f.op.Halfword? || f.op.HalfwordLong? || f.op.WordHalfword? {
      SinglesExact(f, s);
    } else {
      DualsExact(f, s);
    }
  }

  /** Skipping the test for a plain difference is only right for differences: the
      largest sum of two products does leave the signed word. */
  lemma SumCanOverflow()
    ensures Half(0x8000_8000, false) * Half(0x8000_8000, false) + Half(0x8000_8000, true) * Half(0x8000_8000, true) == HALF
  {
  }
}
