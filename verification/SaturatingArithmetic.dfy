/** Saturating arithmetic: straight-line host programs on 64-bit values against the
    portable clamp with sticky Q. */
module SaturatingArithmetic {
  import opened Words
  import opened Isa
  import opened IntegerSemantics
  import opened ShiftCountRange

  datatype Operation = Add | Subtract | DoubleAdd | DoubleSubtract | SignedWord | UnsignedWord | SignedHalfwords | UnsignedHalfwords

  /** A value in a host X register, and the sticky Q accumulated in W22. */
  datatype Lane = Lane(value: int, q: bool)

  /** The most negative value of a signed width. */
  function Lowest(bits: nat): int
    requires bits > 0
  {
    Towards(false, Pow2(bits - 1))
  }

  /** The portable clamp. */
  function Clamp(x: int, bits: nat, signed: bool, q: bool): Lane
    requires signed ==> bits > 0
  {
    var minimum := if signed then Lowest(bits) else 0;
    var maximum := Pow2(if signed then bits - 1 else bits) - 1;
    var clamped := if x < minimum then minimum else if x > maximum then maximum else x;
    Lane(clamped, q || clamped != x)
  }

  /** ASR by 63: all ones for a negative value. */
  function SignMask(x: int): int {
    if x < 0 then -1 else 0
  }

  /** EOR and BIC against a sign mask. */
  function EorMask(x: int, mask: int): int {
    if mask == -1 then -x - 1 else x
  }

  function BicMask(x: int, mask: int): int {
    if mask == -1 then 0 else x
  }

  /** SBFX from bit zero: sign extension of the low bits. */
  function LowBits(x: int, bits: nat): int
    requires bits > 0
  {
    var low := x % Pow2(bits);
    if low >= Pow2(bits - 1) then low - Pow2(bits) else low
  }

  /** Unsigned comparison of 64-bit registers. */
  predicate Higher(x: int, y: int) {
    x % HOST > y % HOST
  }

  /** The emitted saturation of a value known to fit in sourceBits signed bits. */
  function HostSaturate(x: int, bits: nat, signed: bool, sourceBits: nat, q: bool): Lane
    requires 0 < sourceBits && (signed ==> bits > 0)
  {
    if signed && bits >= sourceBits then Lane(x, q)
    else if !signed && bits >= sourceBits - 1 then
      var mask := SignMask(x);
      Lane(BicMask(x, mask), q || mask == -1)
    else
      var maximum := Pow2(if signed then bits - 1 else bits) - 1;
      var mask := SignMask(x);
      if signed then
        var limit := EorMask(maximum, mask);
        var clamped := x != LowBits(x, bits);
        Lane(if clamped then limit else x, q || clamped)
      else
        var clamped := Higher(x, maximum);
        Lane(if clamped then BicMask(maximum, mask) else x, q || clamped)
  }

  lemma {:induction false} Pow2Grows(a: nat, b: nat)
    requires a <= b
    ensures Pow2(a) <= Pow2(b)
  {
    if a < b {
      Pow2Grows(a, b - 1);
    }
  }

  /** A value equals the sign extension of its low bits exactly when it fits them. */
  lemma LowBitsFit(x: int, bits: nat)
    requires bits > 0
    ensures x == LowBits(x, bits) <==> Lowest(bits) <= x < Pow2(bits - 1)
  {
    var h := Pow2(bits - 1);
    assert Pow2(bits) == 2 * h;
    hide Pow2;
    if -h <= x < 0 {
      DivModUnique(x, 2 * h, -1, x + 2 * h);
    } else if 0 <= x < h {
      DivModUnique(x, 2 * h, 0, x);
    }
  }

  lemma Pow2Host()
    ensures Pow2(32) == WORD && Pow2(63) * 2 == HOST
  {
    hide Pow2;
    Pow2Word();
    Pow2Add(32, 31);
  }

  lemma SaturateSigned(x: int, bits: nat, sourceBits: nat, q: bool)
    requires 0 < sourceBits <= 33 && 0 < bits <= 32 && Lowest(sourceBits) <= x < Pow2(sourceBits - 1)
    ensures HostSaturate(x, bits, true, sourceBits, q) == Clamp(x, bits, true, q)
  {
    hide Pow2, LowBits;
    if bits >= sourceBits {
      Pow2Grows(sourceBits - 1, bits - 1);
    } else {
      LowBitsFit(x, bits);
    }
  }

  lemma SaturateUnsigned(x: int, bits: nat, sourceBits: nat, q: bool)
    requires 0 < sourceBits <= 33 && bits <= 32 && Lowest(sourceBits) <= x < Pow2(sourceBits - 1)
    ensures HostSaturate(x, bits, false, sourceBits, q) == Clamp(x, bits, false, q)
  {
    hide Pow2, LowBits, Higher;
    if bits >= sourceBits - 1 {
      Pow2Grows(sourceBits - 1, bits);
    } else {
      Pow2Grows(bits, 32);
      Pow2Grows(sourceBits - 1, 32);
      Pow2Host();
      HighUnsigned(x, Pow2(bits) - 1);
    }
  }

  /** The host saturation equals the clamp on every value its source width allows,
      including where a range bound makes the test unnecessary. */
  lemma SaturateExact(x: int, bits: nat, signed: bool, sourceBits: nat, q: bool)
    requires 0 < sourceBits <= 33 && bits <= 32 && (signed ==> bits > 0)
    requires Lowest(sourceBits) <= x < Pow2(sourceBits - 1)
    ensures HostSaturate(x, bits, signed, sourceBits, q) == Clamp(x, bits, signed, q)
  {
    hide HostSaturate, Clamp, Lowest, Pow2;
    if signed {
      SaturateSigned(x, bits, sourceBits, q);
    } else {
      SaturateUnsigned(x, bits, sourceBits, q);
    }
  }

  /** Negative values also lie above any maximum in unsigned order. */
  lemma HighUnsigned(x: int, maximum: int)
    requires -WORD <= x <= WORD && 0 <= maximum < WORD
    ensures Higher(x, maximum) <==> x < 0 || x > maximum
  {
    if x < 0 {
      DivModUnique(x, HOST, -1, x + HOST);
    } else {
      DivModUnique(x, HOST, 0, x);
    }
    DivModUnique(maximum, HOST, 0, maximum);
  }

  datatype Result = Result(value: Word, q: bool)

  /** Operand and immediate ranges the decoders produce. */
  predicate Decodable(op: Operation, immediate: nat, shift: ShiftKind, amount: nat) {
    match op
    case SignedWord => 1 <= immediate <= 32 && (shift == Lsl || shift == Asr) && amount < 32
    case UnsignedWord => immediate <= 31 && (shift == Lsl || shift == Asr) && amount < 32
    case SignedHalfwords => 1 <= immediate <= 16
    case UnsignedHalfwords => immediate <= 15
    case _ => true
  }

  function Half(w: Word, upper: bool): int {
    var h := if upper then w / 0x1_0000 else w % 0x1_0000;
    if h >= 0x8000 then h - 0x1_0000 else h
  }

  /** The portable evaluation. */
  function Reference(op: Operation, immediate: nat, shift: ShiftKind, amount: nat, first: Word, second: Word, q: bool): Result
    requires Decodable(op, immediate, shift, amount)
  {
    match op
    case SignedWord =>
      var out := Clamp(Signed(Shift(first, shift, amount, false, false).value), immediate, true, q);
      Result(Wrap(out.value), out.q)
    case UnsignedWord =>
      var out := Clamp(Signed(Shift(first, shift, amount, false, false).value), immediate, false, q);
      Result(Wrap(out.value), out.q)
    case SignedHalfwords => Halves(immediate, true, first, q)
    case UnsignedHalfwords => Halves(immediate, false, first, q)
    case _ =>
      var doubled := op.DoubleAdd? || op.DoubleSubtract?;
      var addend := if doubled then Clamp(2 * Signed(second), 32, true, q) else Lane(Signed(second), q);
      var subtract := op.Subtract? || op.DoubleSubtract?;
      var out := Clamp(Signed(first) + (if subtract then -addend.value else addend.value), 32, true, addend.q);
      Result(Wrap(out.value), out.q)
  }

  function Halves(bits: nat, signed: bool, first: Word, q: bool): Result
    requires signed ==> bits > 0
  {
    var low := Clamp(Half(first, false), bits, signed, q);
    var high := Clamp(Half(first, true), bits, signed, low.q);
    Result(Wrap(low.value % 0x1_0000 + high.value % 0x1_0000 * 0x1_0000), high.q)
  }

  /** The host shift of the operand: an arithmetic shift by nothing means by 32. */
  function ShiftedSource(first: Word, shift: ShiftKind, amount: nat): Word
    requires amount < 32
  {
    if shift == Asr then ArithmeticRight(first, if amount == 0 then 31 else amount)
    else ShiftLeft(first, amount)
  }

  /** The emitted program. */
  function Host(op: Operation, immediate: nat, shift: ShiftKind, amount: nat, first: Word, second: Word, q: bool): Result
    requires Decodable(op, immediate, shift, amount)
  {
    if op.SignedWord? && immediate == 32 then Result(ShiftedSource(first, shift, amount), q)
    else if op.SignedHalfwords? && immediate == 16 then Result(first, q)
    else if op.SignedWord? || op.UnsignedWord? then
      var x16 := Signed(ShiftedSource(first, shift, amount));
      var out := HostSaturate(x16, immediate, op.SignedWord?, 32, q);
      Result(Wrap(out.value), out.q)
    else if op.SignedHalfwords? || op.UnsignedHalfwords? then
      var low := HostSaturate(Half(first, false), immediate, op.SignedHalfwords?, 16, q);
      var saved := Wrap(low.value) % 0x1_0000;
      var high := HostSaturate(Half(first, true), immediate, op.SignedHalfwords?, 16, low.q);
      Result(Wrap(saved + ShiftLeft(Wrap(high.value), 16)), high.q)
    else
      var addend :=
        if op.DoubleAdd? || op.DoubleSubtract? then HostSaturate(Signed(second) + Signed(second), 32, true, 33, q)
        else Lane(Signed(second), q);
      var wide := if op.Subtract? || op.DoubleSubtract? then Signed(first) - addend.value else Signed(first) + addend.value;
      var out := HostSaturate(wide, 32, true, 33, addend.q);
      Result(Wrap(out.value), out.q)
  }

  lemma SourceExact(first: Word, shift: ShiftKind, amount: nat)
    requires amount < 32 && (shift == Lsl || shift == Asr)
    ensures ShiftedSource(first, shift, amount) == Shift(first, shift, amount, false, false).value
  {
    hide ArithmeticRight, TopBit, Pow2, BitSet, ShiftLeft;
    if shift == Asr && amount == 0 {
      LongArithmetic(first);
    } else if shift == Lsl && amount == 0 {
      UnshiftedSource(first);
    }
  }

  lemma UnshiftedSource(first: Word)
    ensures ShiftLeft(first, 0) == first
  {
    assert Pow2(0) == 1;
  }

  /** A full-width signed result cannot saturate. */
  lemma FullWidth(x: int, bits: nat, q: bool)
    requires bits > 0 && Lowest(bits) <= x < Pow2(bits - 1)
    ensures Clamp(x, bits, true, q) == Lane(x, q)
  {
  }

  lemma SignedRange(w: Word)
    ensures Lowest(32) <= Signed(w) < Pow2(31) && Wrap(Signed(w)) == w && Pow2(32) == WORD && Pow2(31) == HALF
  {
    Pow2Word();
    hide Pow2;
  }

  lemma HalfRange(w: Word, upper: bool)
    ensures Lowest(16) <= Half(w, upper) < Pow2(15) && Pow2(16) == 0x1_0000
    ensures Half(w, false) % 0x1_0000 + Half(w, true) % 0x1_0000 * 0x1_0000 == w
  {
    Pow2Word();
    assert 2 * Pow2(15) == Pow2(16);
    hide Pow2;
    HalfResidue(w, false);
    HalfResidue(w, true);
  }

  lemma HalfResidue(w: Word, upper: bool)
    ensures Half(w, upper) % 0x1_0000 == if upper then w / 0x1_0000 else w % 0x1_0000
  {
  }

  /** The bytes an ORR of disjoint halves leaves. */
  lemma JoinHalves(low: int, high: int)
    ensures Wrap(Wrap(low) % 0x1_0000 + ShiftLeft(Wrap(high), 16)) == Wrap(low % 0x1_0000 + high % 0x1_0000 * 0x1_0000)
  {
    Pow2Word();
    hide Pow2;
    LowHalf(low);
    ShiftedHalf(high);
  }

  lemma LowHalf(x: int)
    ensures Wrap(x) % 0x1_0000 == x % 0x1_0000
  {
    var q := x / WORD;
    assert x == q * WORD + Wrap(x);
    DivModUnique(x, 0x1_0000, q * 0x1_0000 + Wrap(x) / 0x1_0000, Wrap(x) % 0x1_0000);
  }

  lemma ShiftedHalf(x: int)
    requires Pow2(16) == 0x1_0000
    ensures ShiftLeft(Wrap(x), 16) == x % 0x1_0000 * 0x1_0000
  {
    hide Pow2;
    LowHalf(x);
    var w: int := Wrap(x);
    DivModUnique(w * 0x1_0000, WORD, w / 0x1_0000, w % 0x1_0000 * 0x1_0000);
  }

  lemma WordsExact(op: Operation, immediate: nat, shift: ShiftKind, amount: nat, first: Word, second: Word, q: bool)
    requires Decodable(op, immediate, shift, amount) && (op.SignedWord? || op.UnsignedWord?)
    ensures Host(op, immediate, shift, amount, first, second, q) == Reference(op, immediate, shift, amount, first, second, q)
  {
    hide ShiftedSource, Shift, HostSaturate, Clamp, Pow2, Signed;
    SourceExact(first, shift, amount);
    var x := Signed(ShiftedSource(first, shift, amount));
    SignedRange(ShiftedSource(first, shift, amount));
    if op.SignedWord? && immediate == 32 {
      FullWidth(x, 32, q);
    } else {
      SaturateExact(x, immediate, op.SignedWord?, 32, q);
    }
  }

  /** Both lanes saturate in order, then join. */
  lemma HalvesTested(bits: nat, signed: bool, first: Word, q: bool)
    requires bits <= 16 && (signed ==> bits > 0)
    ensures var low := HostSaturate(Half(first, false), bits, signed, 16, q);
            var high := HostSaturate(Half(first, true), bits, signed, 16, low.q);
            Halves(bits, signed, first, q) ==
            Result(Wrap(Wrap(low.value) % 0x1_0000 + ShiftLeft(Wrap(high.value), 16)), high.q)
  {
    hide Half, HostSaturate, Clamp, Pow2, ShiftLeft, Wrap;
    HalfRange(first, false);
    HalfRange(first, true);
    var low := Clamp(Half(first, false), bits, signed, q);
    SaturateExact(Half(first, false), bits, signed, 16, q);
    SaturateExact(Half(first, true), bits, signed, 16, low.q);
    JoinHalves(low.value, Clamp(Half(first, true), bits, signed, low.q).value);
  }

  lemma HalvesWhole(first: Word, q: bool)
    ensures Halves(16, true, first, q) == Result(first, q)
  {
    HalfRange(first, false);
    HalfRange(first, true);
    hide Half, Clamp, Pow2;
    FullWidth(Half(first, false), 16, q);
    FullWidth(Half(first, true), 16, q);
  }

  lemma HalvesExact(op: Operation, immediate: nat, shift: ShiftKind, amount: nat, first: Word, second: Word, q: bool)
    requires Decodable(op, immediate, shift, amount) && (op.SignedHalfwords? || op.UnsignedHalfwords?)
    ensures Host(op, immediate, shift, amount, first, second, q) == Reference(op, immediate, shift, amount, first, second, q)
  {
    hide Half, HostSaturate, Halves, Pow2, ShiftLeft, Wrap;
    HalvesWhole(first, q);
    HalvesTested(immediate, op.SignedHalfwords?, first, q);
  }

  lemma ClampRange(x: int, q: bool)
    ensures -HALF <= Clamp(x, 32, true, q).value < HALF
  {
    Pow2Word();
    hide Pow2;
  }

  /** A sum of two signed words is within the 33 bits the host test allows for. */
  lemma SumExact(x: int, q: bool)
    requires -WORD <= x < WORD
    ensures HostSaturate(x, 32, true, 33, q) == Clamp(x, 32, true, q)
  {
    Pow2Word();
    hide Pow2, HostSaturate, Clamp;
    SaturateExact(x, 32, true, 33, q);
  }

  /** The second operand, doubled and saturated where the operation asks for it. */
  lemma AddendExact(doubled: bool, second: Word, q: bool)
    ensures var host := if doubled then HostSaturate(Signed(second) + Signed(second), 32, true, 33, q) else Lane(Signed(second), q);
            var clamped := if doubled then Clamp(2 * Signed(second), 32, true, q) else Lane(Signed(second), q);
            host == clamped && -HALF <= clamped.value < HALF
  {
    hide HostSaturate, Clamp, Signed;
    SignedRange(second);
    SumExact(2 * Signed(second), q);
    ClampRange(2 * Signed(second), q);
  }

  lemma SumsExact(op: Operation, immediate: nat, shift: ShiftKind, amount: nat, first: Word, second: Word, q: bool)
    requires op.Add? || op.Subtract? || op.DoubleAdd? || op.DoubleSubtract?
    ensures Host(op, immediate, shift, amount, first, second, q) == Reference(op, immediate, shift, amount, first, second, q)
  {
    hide HostSaturate, Clamp, Signed, Wrap, Shift, ShiftedSource, Halves, Half, ShiftLeft, Pow2;
    SignedRange(first);
    var doubled := op.DoubleAdd? || op.DoubleSubtract?;
    AddendExact(doubled, second, q);
    var addend := if doubled then Clamp(2 * Signed(second), 32, true, q) else Lane(Signed(second), q);
    SumExact(Signed(first) + (if op.Subtract? || op.DoubleSubtract? then -addend.value else addend.value), addend.q);
  }

  /** Every saturating operation the decoders can produce: same result, same Q. */
  lemma SaturatingExact(op: Operation, immediate: nat, shift: ShiftKind, amount: nat, first: Word, second: Word, q: bool)
    requires Decodable(op, immediate, shift, amount)
    ensures Host(op, immediate, shift, amount, first, second, q) == Reference(op, immediate, shift, amount, first, second, q)
  {
    hide Host, Reference;
    match op
    case SignedWord => WordsExact(op, immediate, shift, amount, first, second, q);
    case UnsignedWord => WordsExact(op, immediate, shift, amount, first, second, q);
    case SignedHalfwords => HalvesExact(op, immediate, shift, amount, first, second, q);
    case UnsignedHalfwords => HalvesExact(op, immediate, shift, amount, first, second, q);
    case _ => SumsExact(op, immediate, shift, amount, first, second, q);
  }

  /** The number of an operation in the decoded instruction. */
  function Opcode(op: Operation): nat {
    match op
    case SignedWord => 0
    case UnsignedWord => 1
    case SignedHalfwords => 2
    case UnsignedHalfwords => 3
    case Add => 4
    case Subtract => 5
    case DoubleAdd => 6
    case DoubleSubtract => 7
  }

  /** Which saturations contain a flag-setting comparison. */
  predicate Compares(bits: nat, signed: bool, sourceBits: nat) {
    sourceBits > 0 && !(signed && bits >= sourceBits) && !(!signed && bits >= sourceBits - 1)
  }

  /** Without saved flags the host NZCV survives exactly where nothing compares: at
      the largest unsigned width the program only masks, and a full signed width
      needs no test at all. */
  lemma FlagsTestExact(op: Operation, immediate: nat, shift: ShiftKind, amount: nat)
    requires Decodable(op, immediate, shift, amount)
    ensures SaturationCompares(Opcode(op), immediate) <==>
            match op
            case SignedWord => Compares(immediate, true, 32)
            case UnsignedWord => Compares(immediate, false, 32)
            case SignedHalfwords => Compares(immediate, true, 16)
            case UnsignedHalfwords => Compares(immediate, false, 16)
            case _ => Compares(32, true, 33)
  {
  }
}
