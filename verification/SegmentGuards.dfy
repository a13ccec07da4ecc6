/** Suffix hulls of a segment's accesses, and the four-corner page guard.

A group is a run of accesses off one base register. Each use records the
constant and the stride coefficient of its address relative to the group's
entry; a guard at one access bounds that access and all later ones.
 */
module SegmentGuards {
  import opened Words
  import opened Wrappers
  import opened AddressDisplacements
  import opened AddressKeys

  datatype Use = Use(step: nat, key: Key, constant: Int32, coefficient: Int32)

  datatype Access = Access(
    id: nat, key: Key, first: int, end: int,
    firstCoefficient: Int32, lastCoefficient: Int32,
    stride: Option<Reg>, offset: int)

  datatype Hull = Hull(first: int, end: int, low: int, high: int, valid: bool)

  function AlignedUse(uses: seq<Use>, i: nat): bool
    requires i < |uses|
  {
    var alignment := uses[0].key.Aligned();
    (uses[i].constant - uses[0].constant) % alignment == 0 && uses[i].coefficient % alignment == 0
  }

  /** Running minima and maxima of the backward pass, after visiting use i. */
  function Widen(h: Hull, uses: seq<Use>, i: nat): Hull
    requires i < |uses|
  {
    var u := uses[i];
    Hull(Min(h.first, u.constant), Max(h.end, u.constant + u.key.size),
         Min(h.low, u.coefficient), Max(h.high, u.coefficient),
         h.valid && AlignedUse(uses, i))
  }

  /** The hull of uses[i..]. */
  function SuffixHull(uses: seq<Use>, i: nat): Hull
    requires i < |uses|
    decreases |uses| - i
  {
    if i == |uses| - 1 then
      Hull(uses[i].constant, uses[i].constant + uses[i].key.size,
           uses[i].coefficient, uses[i].coefficient, AlignedUse(uses, i))
    else Widen(SuffixHull(uses, i + 1), uses, i)
  }

  predicate Covered(uses: seq<Use>, i: nat)
    requires i < |uses|
  {
    var h := SuffixHull(uses, i);
    h.valid && h.end - h.first <= PAGE &&
    h.low - uses[i].coefficient >= -HALF && h.high - uses[i].coefficient < HALF
  }

  /** The hull bounds every later use, whose own hull lies within it. */
  lemma {:induction false} HullBounds(uses: seq<Use>, i: nat, j: nat)
    requires i <= j < |uses|
    ensures var h, u, g := SuffixHull(uses, i), uses[j], SuffixHull(uses, j);
            && h.first <= g.first <= u.constant && u.constant + u.key.size <= g.end <= h.end
            && h.low <= g.low <= u.coefficient <= g.high <= h.high
            && (h.valid ==> g.valid && AlignedUse(uses, j))
    decreases |uses| - i
  {
    if i < j {
      HullBounds(uses, i + 1, j);
    } else if i < |uses| - 1 {
      HullBounds(uses, i + 1, i + 1);
    }
  }

  /** Reference registers of a group: its entry values and the stride register. */
  ghost predicate Located(uses: seq<Use>, stride: Option<Reg>, entry: seq<Word>, at: seq<seq<Word>>) {
    && |entry| == 16
    && (forall i :: 0 <= i < |uses| ==> UseLocated(uses, stride, entry, at, i))
  }

  /** The recorded linear form is the address the use really forms, with the
      group's base and direction, and the stride register still has its entry
      value there. */
  ghost predicate UseLocated(uses: seq<Use>, stride: Option<Reg>, entry: seq<Word>, at: seq<seq<Word>>, i: nat)
    requires i < |uses| && |entry| == 16
  {
    var u := uses[i];
    && u.step < |at| && |at[u.step]| == 16
    && u.key.base == uses[0].key.base && u.key.Aligned() == uses[0].key.Aligned()
    && u.key.load == uses[0].key.load && u.key.index.None? && u.key.pcBase.None?
    && (stride.None? ==> u.coefficient == 0)
    && (stride.Some? ==> at[u.step][stride.value] == entry[stride.value])
    && EffectiveAddress(u.key, at[u.step]) ==
       Wrap(entry[u.key.base] + u.constant + u.coefficient * StrideValue(stride, entry))
  }

  function StrideValue(stride: Option<Reg>, regs: seq<Word>): int
    requires |regs| == 16
  {
    if stride.Some? then Signed(regs[stride.value]) else 0
  }

  /** The bounds a guard tests: constant and coefficient of each corner. */
  function Granularity(a: Access): nat {
    var alignment := a.key.Aligned();
    if a.firstCoefficient % alignment == 0 && a.lastCoefficient % alignment == 0 then alignment else 1
  }

  function RoundedLast(a: Access): int {
    (a.end - 1) / Granularity(a) * Granularity(a)
  }

  function Corners(a: Access): seq<(int, int)> {
    var last := RoundedLast(a);
    [(a.first, a.firstCoefficient), (last, a.lastCoefficient),
     (a.first, a.lastCoefficient), (last, a.firstCoefficient)]
  }

  /** The corners that survive: not the masked offset itself, not a repetition. */
  function Emitted(corners: seq<(int, int)>): seq<(int, int)> {
    if corners == [] then []
    else
      var last := corners[|corners| - 1];
      var rest := corners[..|corners| - 1];
      Emitted(rest) + (if last == (0, 0) || last in rest then [] else [last])
  }

  lemma {:induction false} EmittedKeeps(corners: seq<(int, int)>, c: (int, int))
    requires c in corners
    ensures c == (0, 0) || c in Emitted(corners)
  {
    var last, rest := corners[|corners| - 1], corners[..|corners| - 1];
    assert corners == rest + [last];
    if c in rest {
      EmittedKeeps(rest, c);
    }
  }

  /** The emitted guard at an access with effective address ea. */
  predicate GuardPasses(a: Access, ea: Word, stride: int) {
    && (a.key.Aligned() > 1 ==> ea % a.key.Aligned() == 0)
    && (forall c <- Emitted(Corners(a)) :: HostBound(ea % PAGE + stride * c.1 + c.0))
  }

  /** Every corner of the box passes, whichever of them were emitted. */
  lemma CornersPass(a: Access, ea: Word, stride: Int32)
    requires GuardPasses(a, ea, stride)
    requires -0x2_0000_0000 <= a.first <= a.end <= 0x2_0000_0000
    ensures forall c <- Corners(a) :: 0 <= ea % PAGE + stride * c.1 + c.0 < PAGE
  {
    forall c | c in Corners(a)
      ensures 0 <= ea % PAGE + stride * c.1 + c.0 < PAGE
    {
      EmittedKeeps(Corners(a), c);
      ProductRange(stride, if c.1 == a.firstCoefficient then a.firstCoefficient else a.lastCoefficient);
      assert -0x2_0000_0100 <= c.0 <= 0x2_0000_0000 by {
        RoundDown(a.end - 1, Granularity(a));
      }
      HostBoundExact(ea % PAGE + stride * c.1 + c.0);
    }
  }

  /** Rounding down to a multiple loses less than one granule. */
  lemma RoundDown(x: int, g: int)
    requires 1 <= g <= 32
    ensures x - g < x / g * g <= x && x / g * g % g == 0
  {
    assert x == x / g * g + x % g;
    DivModUnique(x / g * g, g, x / g, 0);
  }

  /** The linear form of a boxed point lies in the page with its last byte: the
      box's corners pass and all bases and strides share the alignment lattice. */
  lemma BoxInPage(a: Access, ea: Word, stride: Int32, c: int, k: int, size: Size)
    requires GuardPasses(a, ea, stride)
    requires -0x2_0000_0000 <= a.first <= c && c + size <= a.end <= 0x2_0000_0000
    requires a.firstCoefficient <= k <= a.lastCoefficient
    ensures 0 <= ea % PAGE + c + stride * k && ea % PAGE + c + stride * k + size <= PAGE
  {
    CornersPass(a, ea, stride);
    var corners := Corners(a);
    assert corners[0] in corners && corners[1] in corners && corners[2] in corners && corners[3] in corners;
    BetweenEnds(a.firstCoefficient, k, a.lastCoefficient, stride);
    var off, g, last := ea % PAGE, Granularity(a), RoundedLast(a);
    var low, mid, high := stride * a.firstCoefficient, stride * k, stride * a.lastCoefficient;
    RoundDown(a.end - 1, g);
    LatticeTop(a, ea, stride, a.firstCoefficient);
    LatticeTop(a, ea, stride, a.lastCoefficient);
  }

  /** A sum on the lattice that fits in the page leaves room for its granule. */
  lemma LatticeTop(a: Access, ea: Word, stride: int, k: int)
    requires a.key.Aligned() > 1 ==> ea % a.key.Aligned() == 0
    requires k == a.firstCoefficient || k == a.lastCoefficient
    requires ea % PAGE + stride * k + RoundedLast(a) < PAGE
    ensures ea % PAGE + stride * k + a.end <= PAGE
  {
    var g := Granularity(a);
    RoundDown(a.end - 1, g);
    if g > 1 {
      assert k % g == 0 && ea % g == 0;
      MultipleScaled(stride, k, g);
      LatticeStep(ea % PAGE, stride * k, RoundedLast(a), g, ea);
    }
  }

  lemma LatticeStep(off: int, x: int, y: int, g: Alignment, ea: Word)
    requires off == ea % PAGE && ea % g == 0 && x % g == 0 && y % g == 0
    requires off + x + y < PAGE
    ensures off + x + y + g <= PAGE
  {
    AlignmentOfPage(g);
    ResidueMissing(ea, PAGE);
    PageMultiple(ea - off, g);
    MultiplesAdd(ea, ea - off, g);
    MultiplesAdd(x, y, g);
    MultiplesAdd(off, x + y, g);
    MultiplesAdd(PAGE, off + (x + y), g);
    PositiveMultiple(PAGE - (off + (x + y)), g);
  }

  lemma AlignmentOfPage(g: Alignment)
    ensures PAGE % g == 0
  {
  }

  /** Multiples of the page are multiples of every alignment. */
  lemma PageMultiple(x: int, g: Alignment)
    requires x % PAGE == 0
    ensures x % g == 0
  {
    AlignmentOfPage(g);
    assert x == x / PAGE * PAGE;
    MultipleScaled(x / PAGE, PAGE, g);
  }

  /** The access the compiler records for use i of group id. */
  function AccessOf(uses: seq<Use>, stride: Option<Reg>, id: nat, i: nat, origin: int): Access
    requires i < |uses| && Covered(uses, i)
  {
    var h, u := SuffixHull(uses, i), uses[i];
    Access(id, u.key, h.first - u.constant, h.end - u.constant,
           h.low - u.coefficient, h.high - u.coefficient, stride, u.constant - origin)
  }

  /** Every guard constant is a 12-bit add or subtract immediate. */
  lemma GuardImmediates(uses: seq<Use>, stride: Option<Reg>, id: nat, i: nat, origin: int)
    requires i < |uses| && Covered(uses, i)
    ensures forall c <- Corners(AccessOf(uses, stride, id, i, origin)) :: -4095 <= c.0 <= 4095
  {
    hide SuffixHull, AlignedUse;
    HullBounds(uses, i, i);
    var a := AccessOf(uses, stride, id, i, origin);
    assert -4095 <= a.first <= 0 && 0 <= a.end - 1 <= 4095;
    RoundSmall(a.end - 1, Granularity(a));
  }

  lemma RoundSmall(x: int, g: int)
    requires 0 <= x <= 4095 && g >= 1
    ensures 0 <= x / g * g <= 4095
  {
    assert x == x / g * g + x % g;
  }

  /** A passed segment guard: from that access to the end of its group every
      access lies wholly in the same page and keeps the required alignment. */
  lemma SegmentGuardSound(uses: seq<Use>, stride: Option<Reg>, id: nat, i: nat, origin: int, j: nat,
                          entry: seq<Word>, at: seq<seq<Word>>)
    requires i <= j < |uses| && Covered(uses, i) && Located(uses, stride, entry, at)
    requires var u := uses[i];
             UseLocated(uses, stride, entry, at, i) &&
             GuardPasses(AccessOf(uses, stride, id, i, origin), EffectiveAddress(u.key, at[u.step]),
                         StrideValue(stride, at[u.step]))
    ensures UseLocated(uses, stride, entry, at, j)
    ensures var u, w := uses[i], uses[j];
            InPage(EffectiveAddress(w.key, at[w.step]), w.key.size, EffectiveAddress(u.key, at[u.step])) &&
            EffectiveAddress(w.key, at[w.step]) % w.key.Aligned() == 0
  {
    hide EffectiveAddress, SuffixHull, Wrap, GuardPasses;
    var u, w, s := uses[i], uses[j], StrideValue(stride, entry);
    var a := AccessOf(uses, stride, id, i, origin);
    var ea := EffectiveAddress(u.key, at[u.step]);
    assert UseLocated(uses, stride, entry, at, j);
    HullBounds(uses, i, j);
    HullBounds(uses, i, i);
    BoxInPage(a, ea, s, w.constant - u.constant, w.coefficient - u.coefficient, w.key.size);
    Reached(ea, entry[u.key.base], u.constant, u.coefficient, w.constant, w.coefficient, s, w.key.size);
    GuardAligned(a, ea, s);
    AlignedForms(uses, i, j, s, ea, (w.constant - u.constant) + s * (w.coefficient - u.coefficient));
  }

  lemma GuardAligned(a: Access, ea: Word, stride: int)
    requires GuardPasses(a, ea, stride)
    ensures a.key.Aligned() > 1 ==> ea % a.key.Aligned() == 0
  {
  }

  /** The later access of a group, over the earlier one in the same page. */
  lemma Reached(ea: Word, base: int, c: int, k: int, c': int, k': int, s: int, size: Size)
    requires ea == Wrap(base + c + k * s)
    requires 0 <= ea % PAGE + (c' - c) + s * (k' - k) && ea % PAGE + (c' - c) + s * (k' - k) + size <= PAGE
    ensures var w := Wrap(base + c' + k' * s);
            InPage(w, size, ea) && w == ea + ((c' - c) + s * (k' - k))
  {
    FormsDiffer(base, c, k, c', k', s);
    hide Wrap;
    PageLocal(ea, (c' - c) + s * (k' - k));
  }

  lemma FormsDiffer(base: int, c: int, k: int, c': int, k': int, s: int)
    ensures Wrap(base + c' + k' * s) == Wrap(Wrap(base + c + k * s) + (c' - c) + s * (k' - k))
  {
    assert s * (k' - k) == k' * s - k * s;
    SumMoves(base + c, k * s, (c' - c) + (k' * s - k * s));
  }

  lemma AlignedForms(uses: seq<Use>, i: nat, j: nat, s: int, ea: Word, shift: int)
    requires i < |uses| && j < |uses| && AlignedUse(uses, i) && AlignedUse(uses, j)
    requires shift == (uses[j].constant - uses[i].constant) + s * (uses[j].coefficient - uses[i].coefficient)
    requires uses[0].key.Aligned() > 1 ==> ea % uses[0].key.Aligned() == 0
    ensures (ea + shift) % uses[0].key.Aligned() == 0
  {
    var g: Alignment := uses[0].key.Aligned();
    var c := uses[j].constant - uses[i].constant;
    var k := uses[j].coefficient - uses[i].coefficient;
    LatticeDifference(uses[j].constant - uses[0].constant, uses[i].constant - uses[0].constant, g);
    LatticeDifference(uses[j].coefficient, uses[i].coefficient, g);
    MultipleScaled(s, k, g);
    LatticeSum(ea, c, s * k, g);
  }

  lemma LatticeDifference(x: int, y: int, g: Alignment)
    requires x % g == 0 && y % g == 0
    ensures (x - y) % g == 0
  {
    MultiplesAdd(x, y, g);
  }

  lemma LatticeSum(x: int, y: int, z: int, g: Alignment)
    requires (g > 1 ==> x % g == 0) && y % g == 0 && z % g == 0
    ensures (x + (y + z)) % g == 0
  {
    if g > 1 {
      MultiplesAdd(y, z, g);
      MultiplesAdd(x, y + z, g);
    }
  }
}
