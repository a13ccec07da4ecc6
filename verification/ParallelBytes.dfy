/** Four byte lanes in one word: the host program against the portable lane loop.

Everything here is bit-vector arithmetic: words are bv32 and a lane's signed value
is its 32-bit two's-complement pattern, as in the portable code.
 */
module ParallelBytes {
  const LOW_BITS: bv32 := 0x7f7f7f7f
  const HIGH_BITS: bv32 := 0x80808080

  predicate LaneOffset(offset: bv32) {
    offset == 0 || offset == 8 || offset == 16 || offset == 24
  }

  function Byte(v: bv32, offset: bv32): bv32
    requires LaneOffset(offset)
  {
    (v >> offset) & 0xff
  }

  /** A lane's signed value: exclusive-or with the sign bit, then subtraction. */
  function Extended(byte: bv32, signed: bool): bv32 {
    if signed then (byte ^ 0x80) - 0x80 else byte
  }

  function LaneValue(a: bv32, b: bv32, subtract: bool, signed: bool): bv32 {
    if subtract then Extended(a, signed) - Extended(b, signed) else Extended(a, signed) + Extended(b, signed)
  }

  /** The byte a lane's value leaves. */
  function Wrapped(a: bv32, b: bv32, subtract: bool): bv32 {
    (if subtract then a - b else a + b) & 0xff
  }

  /** Signed and subtracting lanes test for a nonnegative value, unsigned sums for a
      carry out of the byte. */
  predicate GreaterEqual(a: bv32, b: bv32, subtract: bool, signed: bool) {
    var value := LaneValue(a, b, subtract, signed);
    if signed || subtract then value < 0x80000000 else value > 0xff
  }

  datatype Outcome = Outcome(result: bv32, ge: bv32)

  /** One iteration of the portable loop. */
  function WithLane(before: Outcome, n: bv32, m: bv32, subtract: bool, signed: bool, offset: bv32): Outcome
    requires LaneOffset(offset)
  {
    var a, b := Byte(n, offset), Byte(m, offset);
    Outcome(before.result | ((LaneValue(a, b, subtract, signed) & 0xff) << offset),
            if GreaterEqual(a, b, subtract, signed) then before.ge | ((1 as bv32) << (offset >> 3)) else before.ge)
  }

  /** Where the loop's iteration i takes its bytes. */
  function OffsetOf(i: nat): (offset: bv32)
    requires i < 4
    ensures LaneOffset(offset)
  {
    if i == 0 then 0 else if i == 1 then 8 else if i == 2 then 16 else 24
  }

  /** The first count iterations. */
  function Done(n: bv32, m: bv32, subtract: bool, signed: bool, count: nat): Outcome
    requires count <= 4
  {
    if count == 0 then Outcome(0, 0)
    else WithLane(Done(n, m, subtract, signed, count - 1), n, m, subtract, signed, OffsetOf(count - 1))
  }

  function Lanes(n: bv32, m: bv32, subtract: bool, signed: bool): Outcome {
    Done(n, m, subtract, signed, 4)
  }

  lemma DoneNext(n: bv32, m: bv32, subtract: bool, signed: bool, count: nat)
    requires count < 4
    ensures Done(n, m, subtract, signed, 0) == Outcome(0, 0)
    ensures Done(n, m, subtract, signed, count + 1) ==
            WithLane(Done(n, m, subtract, signed, count), n, m, subtract, signed, OffsetOf(count))
  {
    hide WithLane, OffsetOf;
  }

  /** The portable lane loop. */
  method LaneLoop(n: bv32, m: bv32, subtract: bool, signed: bool) returns (out: Outcome)
    ensures out == Lanes(n, m, subtract, signed)
  {
    hide Done, WithLane;
    var i: nat := 0;
    out := Outcome(0, 0);
    DoneNext(n, m, subtract, signed, 0);
    while i < 4
      invariant i <= 4 && out == Done(n, m, subtract, signed, i)
    {
      DoneNext(n, m, subtract, signed, i);
      out := WithLane(out, n, m, subtract, signed, OffsetOf(i));
      i := i + 1;
    }
  }

  /** The wrapped bytes: seven-bit sums cannot carry into the next byte, and a forced
      high bit absorbs each byte's borrow. */
  function HostSum(n: bv32, m: bv32, subtract: bool): bv32 {
    var w15, w16 := n & LOW_BITS, m & LOW_BITS;
    var sum := if subtract then (w15 | HIGH_BITS) - w16 else w15 + w16;
    var mixed := sum ^ ((n ^ m) & HIGH_BITS);
    if subtract then mixed ^ HIGH_BITS else mixed
  }

  /** High bit of each byte: the majority of the source signs and the result. */
  function HostSigns(n: bv32, m: bv32, result: bv32, subtract: bool, signed: bool): bv32 {
    var both := if subtract then n & !m else n & m;
    var either := if subtract then n | !m else n | m;
    var w16 := both | (if signed then either & result else either & !result);
    if signed then !w16 else w16
  }

  /** Gather the four high bits by one multiplication. */
  function HostGather(signs: bv32): bv32 {
    ((((signs >> 7) & 0x01010101) * 0x01020408) >> 24) & 15
  }

  function HostBytes(n: bv32, m: bv32, subtract: bool, signed: bool): Outcome {
    var result := HostSum(n, m, subtract);
    Outcome(result, HostGather(HostSigns(n, m, result, subtract, signed)))
  }

  /** Carries and borrows are costly for the solver: one lemma for each lane. */
  lemma SumByte0(n: bv32, m: bv32, subtract: bool)
    ensures Byte(HostSum(n, m, subtract), 0) == Wrapped(Byte(n, 0), Byte(m, 0), subtract)
  {
  }

  lemma SumByte8(n: bv32, m: bv32, subtract: bool)
    ensures Byte(HostSum(n, m, subtract), 8) == Wrapped(Byte(n, 8), Byte(m, 8), subtract)
  {
  }

  lemma SumByte16(n: bv32, m: bv32, subtract: bool)
    ensures Byte(HostSum(n, m, subtract), 16) == Wrapped(Byte(n, 16), Byte(m, 16), subtract)
  {
  }

  lemma SumByte24(n: bv32, m: bv32, subtract: bool)
    ensures Byte(HostSum(n, m, subtract), 24) == Wrapped(Byte(n, 24), Byte(m, 24), subtract)
  {
  }

  /** Each result byte is the wrapped sum or difference of its lane. */
  lemma SumByte(n: bv32, m: bv32, subtract: bool, offset: bv32)
    requires LaneOffset(offset)
    ensures Byte(HostSum(n, m, subtract), offset) == Wrapped(Byte(n, offset), Byte(m, offset), subtract)
  {
    hide HostSum, Byte, Wrapped;
    if offset == 0 {
      SumByte0(n, m, subtract);
    } else if offset == 8 {
      SumByte8(n, m, subtract);
    } else if offset == 16 {
      SumByte16(n, m, subtract);
    } else {
      SumByte24(n, m, subtract);
    }
  }

  lemma LowByteAdded(a: bv32, b: bv32)
    ensures LaneValue(a, b, false, true) & 0xff == Wrapped(a, b, false)
  {
  }

  lemma LowByteSubtracted(a: bv32, b: bv32)
    ensures LaneValue(a, b, true, true) & 0xff == Wrapped(a, b, true)
  {
  }

  lemma PlainByteAdded(a: bv32, b: bv32)
    ensures LaneValue(a, b, false, false) & 0xff == Wrapped(a, b, false)
  {
  }

  lemma PlainByteSubtracted(a: bv32, b: bv32)
    ensures LaneValue(a, b, true, false) & 0xff == Wrapped(a, b, true)
  {
  }

  /** Extending the lanes does not change their low byte. */
  lemma LowByte(a: bv32, b: bv32, subtract: bool, signed: bool)
    ensures LaneValue(a, b, subtract, signed) & 0xff == Wrapped(a, b, subtract)
  {
    hide LaneValue, Wrapped;
    if subtract {
      if signed {
        LowByteSubtracted(a, b);
      } else {
        PlainByteSubtracted(a, b);
      }
    } else if signed {
      LowByteAdded(a, b);
    } else {
      PlainByteAdded(a, b);
    }
  }

  lemma AddedSigned(a: bv32, b: bv32, r: bv32)
    requires a <= 0xff && b <= 0xff && r == Wrapped(a, b, false)
    ensures (HostSigns(a, b, r, false, true) & 0x80 != 0) == GreaterEqual(a, b, false, true)
  {
  }

  lemma AddedUnsigned(a: bv32, b: bv32, r: bv32)
    requires a <= 0xff && b <= 0xff && r == Wrapped(a, b, false)
    ensures (HostSigns(a, b, r, false, false) & 0x80 != 0) == GreaterEqual(a, b, false, false)
  {
  }

  lemma SubtractedSigned(a: bv32, b: bv32, r: bv32)
    requires a <= 0xff && b <= 0xff && r == Wrapped(a, b, true)
    ensures (HostSigns(a, b, r, true, true) & 0x80 != 0) == GreaterEqual(a, b, true, true)
  {
  }

  lemma SubtractedUnsigned(a: bv32, b: bv32, r: bv32)
    requires a <= 0xff && b <= 0xff && r == Wrapped(a, b, true)
    ensures (HostSigns(a, b, r, true, false) & 0x80 != 0) == GreaterEqual(a, b, true, false)
  {
  }

  /** One byte: the majority of the signs decides the comparison. */
  lemma SignOfByte(a: bv32, b: bv32, r: bv32, subtract: bool, signed: bool)
    requires a <= 0xff && b <= 0xff && r == Wrapped(a, b, subtract)
    ensures (HostSigns(a, b, r, subtract, signed) & 0x80 != 0) == GreaterEqual(a, b, subtract, signed)
  {
    hide HostSigns, GreaterEqual, Wrapped;
    if subtract {
      if signed {
        SubtractedSigned(a, b, r);
      } else {
        SubtractedUnsigned(a, b, r);
      }
    } else if signed {
      AddedSigned(a, b, r);
    } else {
      AddedUnsigned(a, b, r);
    }
  }

  /** The sign program works bit by bit, hence byte by byte. */
  lemma SignsByte(n: bv32, m: bv32, r: bv32, subtract: bool, signed: bool, offset: bv32)
    requires LaneOffset(offset)
    ensures Byte(HostSigns(n, m, r, subtract, signed), offset) & 0x80 ==
            HostSigns(Byte(n, offset), Byte(m, offset), Byte(r, offset), subtract, signed) & 0x80
  {
    if offset == 0 { } else if offset == 8 { } else if offset == 16 { } else { }
  }

  /** The bit a lane contributes. */
  lemma LaneSign(n: bv32, m: bv32, subtract: bool, signed: bool, offset: bv32)
    requires LaneOffset(offset)
    ensures (Byte(HostSigns(n, m, HostSum(n, m, subtract), subtract, signed), offset) & 0x80 != 0) ==
            GreaterEqual(Byte(n, offset), Byte(m, offset), subtract, signed)
  {
    hide HostSum, HostSigns, Byte, GreaterEqual, LaneValue, Wrapped;
    var r := HostSum(n, m, subtract);
    SumByte(n, m, subtract, offset);
    SignsByte(n, m, r, subtract, signed, offset);
    ByteBound(n, offset);
    ByteBound(m, offset);
    SignOfByte(Byte(n, offset), Byte(m, offset), Byte(r, offset), subtract, signed);
  }

  lemma ByteBound(v: bv32, offset: bv32)
    requires LaneOffset(offset)
    ensures Byte(v, offset) <= 0xff
  {
  }

  /** The multiplication collects bit 7 of each byte without collisions. */
  lemma GatherExact(signs: bv32)
    ensures HostGather(signs) == ((signs >> 7) & 1) | ((signs >> 14) & 2) | ((signs >> 21) & 4) | ((signs >> 28) & 8)
  {
  }

  lemma GatheredBit0(signs: bv32)
    ensures (signs >> 7) & 1 == if Byte(signs, 0) & 0x80 != 0 then 1 else 0
  {
  }

  lemma GatheredBit8(signs: bv32)
    ensures (signs >> 14) & 2 == if Byte(signs, 8) & 0x80 != 0 then 2 else 0
  {
  }

  lemma GatheredBit16(signs: bv32)
    ensures (signs >> 21) & 4 == if Byte(signs, 16) & 0x80 != 0 then 4 else 0
  {
  }

  lemma GatheredBit24(signs: bv32)
    ensures (signs >> 28) & 8 == if Byte(signs, 24) & 0x80 != 0 then 8 else 0
  {
  }

  lemma FromBytes(v: bv32)
    ensures v == Byte(v, 0) | (Byte(v, 8) << 8) | (Byte(v, 16) << 16) | (Byte(v, 24) << 24)
  {
  }

  /** The portable loop, laid out flat. */
  lemma LanesFlat(n: bv32, m: bv32, subtract: bool, signed: bool)
    ensures var out := Lanes(n, m, subtract, signed);
            && out.result ==
               (LaneValue(Byte(n, 0), Byte(m, 0), subtract, signed) & 0xff) |
               ((LaneValue(Byte(n, 8), Byte(m, 8), subtract, signed) & 0xff) << 8) |
               ((LaneValue(Byte(n, 16), Byte(m, 16), subtract, signed) & 0xff) << 16) |
               ((LaneValue(Byte(n, 24), Byte(m, 24), subtract, signed) & 0xff) << 24)
            && out.ge ==
               (if GreaterEqual(Byte(n, 0), Byte(m, 0), subtract, signed) then 1 else 0) |
               (if GreaterEqual(Byte(n, 8), Byte(m, 8), subtract, signed) then 2 else 0) |
               (if GreaterEqual(Byte(n, 16), Byte(m, 16), subtract, signed) then 4 else 0) |
               (if GreaterEqual(Byte(n, 24), Byte(m, 24), subtract, signed) then 8 else 0)
  {
    hide LaneValue, GreaterEqual, Byte, Done;
    DoneNext(n, m, subtract, signed, 0);
    DoneNext(n, m, subtract, signed, 1);
    DoneNext(n, m, subtract, signed, 2);
    DoneNext(n, m, subtract, signed, 3);
  }

  /** For all operands, sign modes and directions, the host program leaves the result
      lanes and comparison bits of the portable loop. */
  lemma BytesExact(n: bv32, m: bv32, subtract: bool, signed: bool)
    ensures HostBytes(n, m, subtract, signed) == Lanes(n, m, subtract, signed)
  {
    var result := HostSum(n, m, subtract);
    var signs := HostSigns(n, m, result, subtract, signed);
    LanesFlat(n, m, subtract, signed);
    FromBytes(result);
    GatherExact(signs);
    GatheredBit0(signs);
    GatheredBit8(signs);
    GatheredBit16(signs);
    GatheredBit24(signs);
    Lane(n, m, subtract, signed, 0);
    Lane(n, m, subtract, signed, 8);
    Lane(n, m, subtract, signed, 16);
    Lane(n, m, subtract, signed, 24);
    hide HostSum, HostSigns, HostGather, LaneValue, GreaterEqual, Byte, Lanes, Done, Wrapped;
  }

  lemma Lane(n: bv32, m: bv32, subtract: bool, signed: bool, offset: bv32)
    requires LaneOffset(offset)
    ensures Byte(HostSum(n, m, subtract), offset) == LaneValue(Byte(n, offset), Byte(m, offset), subtract, signed) & 0xff
    ensures (Byte(HostSigns(n, m, HostSum(n, m, subtract), subtract, signed), offset) & 0x80 != 0) ==
            GreaterEqual(Byte(n, offset), Byte(m, offset), subtract, signed)
  {
    hide HostSum, HostSigns, HostGather, LaneValue, GreaterEqual, Byte, Lanes, Done, Wrapped;
    SumByte(n, m, subtract, offset);
    LowByte(Byte(n, offset), Byte(m, offset), subtract, signed);
    LaneSign(n, m, subtract, signed, offset);
  }
}
