/** The address a memory instruction forms, and the 4096-byte page it lies in. */
module AddressKeys {
  import opened Words
  import opened Wrappers
  import opened Isa
  import opened IntegerSemantics

  type Size = n: nat | n >= 1 witness 1

  /** Required and natural alignments: powers of two no larger than 32 bytes. */
  type Alignment = n: nat | n in {1, 2, 4, 8, 16, 32} witness 1

  datatype Key = Key(
    base: Reg, size: Size, offset: Word, add: bool, load: bool,
    alignment: Alignment, naturalAlignment: Alignment,
    index: Option<Reg>, shift: ShiftKind, shiftAmount: nat,
    pcBase: Option<Word>)
  {
    /** Registers whose value the address depends on; a PC base is a constant. */
    function Inputs(): set<Reg> {
      (if pcBase.Some? then {} else {base}) + (if index.Some? then {index.value} else {})
    }

    function Aligned(): Alignment {
      if alignment >= naturalAlignment then alignment else naturalAlignment
    }
  }

  function Offset(key: Key, regs: seq<Word>): Word
    requires |regs| == 16
  {
    if key.index.Some? then Shift(regs[key.index.value], key.shift, key.shiftAmount, false, false).value
    else key.offset
  }

  /** The architectural effective address. Keys never use RRX, so the incoming
      carry passed to the index shift is immaterial. */
  function EffectiveAddress(key: Key, regs: seq<Word>): Word
    requires |regs| == 16
  {
    Wrap((if key.pcBase.Some? then key.pcBase.value else regs[key.base]) + Towards(key.add, Offset(key, regs)))
  }

  /** The access at address lies wholly in the page of anchor. */
  predicate InPage(address: Word, size: Size, anchor: Word) {
    address / PAGE == anchor / PAGE && address % PAGE + size <= PAGE
  }

  /** A host bound: LSR by 12 of the 64-bit sum, then CBNZ to the fallback. */
  predicate HostBound(sum: int) {
    sum % HOST / PAGE == 0
  }

  /** The unsigned shift rejects exactly the sums outside the page. */
  lemma HostBoundExact(sum: int)
    requires -0x7000_0000_0000_0000 <= sum < 0x7000_0000_0000_0000
    ensures HostBound(sum) <==> 0 <= sum < PAGE
  {
    if sum < 0 {
      assert sum % HOST == sum + HOST;
    }
  }

  /** A signed 32-by-32 product leaves room in 64 bits. */
  lemma ProductRange(a: Int32, b: Int32)
    ensures -0x4000_0000_0000_0000 <= a * b <= 0x4000_0000_0000_0000
  {
    var m: int, n: int := Towards(a >= 0, a), Towards(b >= 0, b);
    assert m * n <= 0x8000_0000 * n by { Scale(0x8000_0000, m, n); }
    assert a * b == m * n || a * b == -(m * n);
    assert m * n >= 0;
  }

  /** A linear form is at least one of its endpoint values in each variable. */
  lemma BetweenEnds(low: int, k: int, high: int, s: int)
    requires low <= k <= high
    ensures low * s <= k * s || high * s <= k * s
    ensures k * s <= low * s || k * s <= high * s
  {
    if s >= 0 {
      Scale(k, low, s);
      Scale(high, k, s);
    } else {
      Scale(k, low, -s);
      Scale(high, k, -s);
    }
  }

  /** A signed multiplier and the register it was read from agree modulo 2^32. */
  lemma SignedMultiplier(base: int, k: int, w: Word)
    ensures Wrap(base + k * Signed(w)) == Wrap(base + k * w)
  {
    assert Wrap(Signed(w)) == Wrap(w);
    WrapScale(Signed(w), w, k, base);
  }
}
