/** Windows over a cycle, their expansion to unrolled copies, and the entry guard.

If the guard passes in the registers at group entry, every access of every copy
of the cycle lies in the page of the entry base.
 */
module WindowGuards {
  import opened Words
  import opened Wrappers
  import opened AddressDisplacements
  import opened AddressKeys
  import opened AddressSegments
  import opened AccessBounds

  datatype Window = Window(
    base: Reg, alignment: Alignment, naturalAlignment: Alignment, residue: nat, load: bool,
    first: int, end: int, keys: nat, indexed: bool, adjusted: bool, enabled: bool,
    advance: Int32, stride: Option<Reg>, firstCoefficient: int, lastCoefficient: int, strideAdvance: Int32)
  {
    predicate Advances() {
      advance != 0 || strideAdvance != 0
    }
  }

  /** The stride register of an access: that of the cycle's net displacement, or
      the one its own displacements used. */
  function StrideFor(a: Access, facts: Facts): Option<Reg>
    requires Wellformed(facts)
  {
    var advance := facts.values[a.key.base];
    if advance.Some? && advance.value.index.Some? then advance.value.index else a.stride
  }

  /** Whether an access joins a window. */
  predicate Placeable(a: Access, facts: Facts)
    requires Wellformed(facts)
  {
    var advance, stride := facts.values[a.key.base], StrideFor(a, facts);
    && a.valid && advance.Some?
    && advance.value.constant % a.key.Aligned() == 0 && advance.value.coefficient % a.key.Aligned() == 0
    && (a.stride.Some? && advance.value.index.Some? ==> a.stride == advance.value.index)
    && (stride.Some? ==> stride.value !in facts.written && a.key.index.None?)
  }

  /** The window an access may share. */
  predicate Matches(w: Window, a: Access, facts: Facts)
    requires Wellformed(facts)
  {
    && w.base == a.key.base && w.load == a.key.load && w.alignment == a.key.alignment
    && w.naturalAlignment == a.key.naturalAlignment && w.residue == a.residue && w.stride == StrideFor(a, facts)
  }

  /** The window bounds everything the access was observed to do. */
  predicate Holds(w: Window, a: Access, facts: Facts)
    requires Wellformed(facts)
  {
    && Placeable(a, facts) && Matches(w, a, facts)
    && w.advance == facts.values[a.key.base].value.constant
    && w.strideAdvance == facts.values[a.key.base].value.coefficient
    && w.first <= a.first && a.end <= w.end
    && w.firstCoefficient <= a.firstCoefficient && a.lastCoefficient <= w.lastCoefficient
  }

  /** An enabled window's bounds fit one page and its multipliers 32 bits. */
  predicate Armed(w: Window) {
    w.enabled ==> Fits(w.first, w.end) && -HALF <= w.firstCoefficient && w.lastCoefficient < HALF
  }

  /** A window widened over all copies of the cycle. */
  function Expanded(w: Window, copies: nat): Window {
    if !w.enabled || !w.Advances() then w
    else if copies == 0 then w.(enabled := false)
    else Stretched(w, w.advance * (copies - 1), w.strideAdvance * (copies - 1))
  }

  /** A window that also covers what lies last bytes and strideLast strides away. */
  function Stretched(w: Window, last: int, strideLast: int): Window {
    var first, end := w.first + Min(0, last), w.end + Max(0, last);
    var low, high := w.firstCoefficient + Min(0, strideLast), w.lastCoefficient + Max(0, strideLast);
    w.(first := first, end := end, firstCoefficient := low, lastCoefficient := high,
       enabled := Fits(first, end) && low >= -HALF && high < HALF)
  }

  /** One endpoint test; the unadjusted page offset needs none. */
  predicate Bound(offset: nat, stride: int, constant: int, coefficient: int) {
    (constant == 0 && coefficient == 0) || HostBound(offset + stride * coefficient + constant)
  }

  /** The emitted guard of one enabled window. */
  predicate GuardPasses(w: Window, regs: seq<Word>)
    requires |regs| == 16
  {
    var offset := regs[w.base] % PAGE;
    if w.stride.Some? then
      var s := Signed(regs[w.stride.value]);
      if w.firstCoefficient == w.lastCoefficient || s >= 0 then
        Bound(offset, s, w.first, w.firstCoefficient) && Bound(offset, s, w.end - 1, w.lastCoefficient)
      else
        Bound(offset, s, w.first, w.lastCoefficient) && Bound(offset, s, w.end - 1, w.firstCoefficient)
    else
      var low := Wrap(offset + w.first);
      low / PAGE == 0 && Wrap(low + (w.end - w.first - 1)) / PAGE == 0
  }

  lemma StretchedArmed(w: Window, last: int, strideLast: int)
    ensures Armed(Stretched(w, last, strideLast))
  {
    hide Fits, Min, Max;
  }

  lemma ExpandedArmed(w: Window, copies: nat)
    requires Armed(w)
    ensures Armed(Expanded(w, copies))
  {
    hide Stretched, Fits;
    if copies != 0 {
      StretchedArmed(w, w.advance * (copies - 1), w.strideAdvance * (copies - 1));
    }
  }

  /** Every constant a guard adds or subtracts is a 12-bit immediate, and every
      multiplier a signed 32-bit one. */
  lemma GuardImmediates(w: Window)
    requires Armed(w) && w.enabled
    ensures -4095 <= w.first <= 4095 && -4095 <= w.end - 1 <= 4095 && 0 <= w.end - w.first - 1 <= 4095
    ensures w.firstCoefficient <= w.lastCoefficient ==>
              ToSigned(w.firstCoefficient) == w.firstCoefficient && ToSigned(w.lastCoefficient) == w.lastCoefficient
  {
  }

  lemma BoundExact(offset: nat, stride: Int32, constant: int, coefficient: Int32)
    requires offset < PAGE && -PAGE < constant < PAGE && Bound(offset, stride, constant, coefficient)
    ensures 0 <= offset + stride * coefficient + constant < PAGE
  {
    ProductRange(stride, coefficient);
    hide HostBound;
    if constant != 0 || coefficient != 0 {
      HostBoundExact(offset + stride * coefficient + constant);
    }
  }

  /** A passed guard keeps every boxed linear form, with its last byte, in the page. */
  lemma BoxInPage(w: Window, regs: seq<Word>, x: int, y: int, size: Size)
    requires |regs| == 16 && Armed(w) && w.enabled && GuardPasses(w, regs)
    requires w.first <= x && x + size <= w.end && w.firstCoefficient <= y <= w.lastCoefficient
    ensures var form := regs[w.base] % PAGE + x + y * StrideOf(w.stride, regs);
            0 <= form && form + size <= PAGE
  {
    hide Bound, Fits;
    GuardImmediates(w);
    if w.stride.Some? {
      var offset, s := regs[w.base] % PAGE, Signed(regs[w.stride.value]);
      var rising := w.firstCoefficient == w.lastCoefficient || s >= 0;
      var low: Int32, high: Int32 := if rising then w.firstCoefficient else w.lastCoefficient,
                                     if rising then w.lastCoefficient else w.firstCoefficient;
      hide Armed, GuardPasses;
      BoundExact(offset, s, w.first, low);
      BoundExact(offset, s, w.end - 1, high);
      StridedBox(offset, s, low, high, y, rising);
    } else {
      PlainBox(w, regs, x, size);
    }
  }

  /** Between its ends a scaled coefficient moves between theirs. */
  lemma StridedBox(offset: int, s: int, low: int, high: int, y: int, rising: bool)
    requires if rising then low <= y <= high && (low == high || s >= 0) else high <= y <= low && s < 0
    ensures s * low <= y * s <= s * high
  {
    if s >= 0 {
      Scale(y, low, s);
      Scale(high, y, s);
    } else {
      Scale(y, high, -s);
      Scale(low, y, -s);
    }
    Commuted(s, low, high, y);
  }

  /** Without a stride the two ends of the window are tested one after the other. */
  lemma PlainBox(w: Window, regs: seq<Word>, x: int, size: Size)
    requires |regs| == 16 && Armed(w) && w.enabled && GuardPasses(w, regs) && w.stride.None?
    requires w.first <= x && x + size <= w.end
    ensures 0 <= regs[w.base] % PAGE + x && regs[w.base] % PAGE + x + size <= PAGE
  {
    hide Bound;
    GuardImmediates(w);
    PlainEnds(regs[w.base] % PAGE, w.first, w.end);
  }

  lemma PlainEnds(offset: nat, first: int, end: int)
    requires offset < PAGE && -4095 <= first <= 4095 && 0 <= end - first - 1 <= 4095
    requires Wrap(offset + first) / PAGE == 0 && Wrap(Wrap(offset + first) + (end - first - 1)) / PAGE == 0
    ensures 0 <= offset + first && offset + end <= PAGE
  {
  }

  lemma Commuted(s: int, low: int, high: int, y: int)
    ensures s * low == low * s && s * high == high * s && y * -s == -(y * s) && low * -s == -(low * s) && high * -s == -(high * s)
  {
  }

  /** One complete run of the cycle from registers entry to registers exit. */
  ghost predicate CycleRun(p: seq<PathStep>, entry: seq<Word>, exit: seq<Word>) {
    exists at: seq<seq<Word>> :: Executes(p, at, 0) && at[0] == entry && at[|p|] == exit
  }

  ghost predicate CopyRuns(p: seq<PathStep>, entries: seq<seq<Word>>, k: nat)
    requires k + 1 < |entries|
  {
    |entries[k]| == |entries[k + 1]| == 16 && CycleRun(p, entries[k], entries[k + 1])
  }

  /** The registers at the start of each copy of the cycle in one group. */
  ghost predicate Copies(p: seq<PathStep>, entries: seq<seq<Word>>) {
    entries != [] && |entries[0]| == 16 && forall k: nat :: k + 1 < |entries| ==> CopyRuns(p, entries, k)
  }

  lemma {:induction false} AnalysisTracks(s: Analysis, p: seq<PathStep>, entry: seq<Word>, at: seq<seq<Word>>)
    requires Executes(p, at, 0) && Tracks(s, entry, at[0])
    ensures Tracks(AnalyseAll(s, p), entry, at[|p|])
    decreases |p|
  {
    hide Tracks, AccessBounds.Advance, Shaped;
    TracksShape(s, entry, at[0]);
    if p != [] {
      assert StepRetires(p, at, 0, 0);
      AdvanceTracks(s, p[0].inst, p[0].key, entry, at[0], at[1]);
      var rest, states := p[1..], at[1..];
      forall k: nat | k < |rest|
        ensures StepRetires(rest, states, 0, k)
      {
        assert StepRetires(p, at, 0, k + 1);
      }
      AnalysisTracks(AccessBounds.Advance(s, p[0].inst, p[0].key), rest, entry, states);
    }
  }

  lemma StartTracks(entry: seq<Word>)
    requires |entry| == 16
    ensures Tracks(START, entry, entry) && AllSane(START)
  {
    InitialSound(entry);
  }

  /** What one run of the cycle does to a register it can express. */
  lemma CycleMoves(p: seq<PathStep>, entry: seq<Word>, exit: seq<Word>)
    requires |entry| == |exit| == 16 && CycleRun(p, entry, exit)
    ensures Sound(AnalyseAll(START, p).facts, entry, exit)
  {
    hide Tracks, Sound;
    var at: seq<seq<Word>> :| Executes(p, at, 0) && at[0] == entry && at[|p|] == exit;
    StartTracks(entry);
    AnalysisTracks(START, p, entry, at);
    TracksFacts(AnalyseAll(START, p), entry, exit);
  }

  lemma TracksFacts(s: Analysis, entry: seq<Word>, current: seq<Word>)
    requires Tracks(s, entry, current)
    ensures Sound(s.facts, entry, current) && Shaped(s)
  {
  }

  /** The base at copy m has moved by m times the cycle's net displacement. */
  lemma {:induction false} BaseAtCopy(p: seq<PathStep>, entries: seq<seq<Word>>, m: nat, base: Reg, stride: Option<Reg>)
    requires Copies(p, entries) && m < |entries|
    requires var facts := AnalyseAll(START, p).facts;
             Wellformed(facts) && facts.values[base].Some? &&
             (stride.Some? ==> stride.value !in facts.written) &&
             (facts.values[base].value.index.Some? ==> facts.values[base].value.index == stride)
    ensures |entries[m]| == 16 && StrideOf(stride, entries[m]) == StrideOf(stride, entries[0])
    ensures var e := AnalyseAll(START, p).facts.values[base].value;
            entries[m][base] ==
            Wrap(entries[0][base] + m * e.constant + m * e.coefficient * StrideOf(stride, entries[0]))
  {
    hide AnalyseAll, CycleRun, Wrap, StrideOf, Sound;
    var e := AnalyseAll(START, p).facts.values[base].value;
    if m != 0 {
      BaseAtCopy(p, entries, m - 1, base, stride);
      assert CopyRuns(p, entries, m - 1);
      CycleMoves(p, entries[m - 1], entries[m]);
      OneCopy(AnalyseAll(START, p).facts, entries[m - 1], entries[m], base, stride);
      MoreCopies(entries[0][base], m, e.constant, e.coefficient, StrideOf(stride, entries[0]));
    } else {
      NoCopies(entries[0][base], e.constant, e.coefficient, StrideOf(stride, entries[0]));
    }
  }

  lemma OneCopy(facts: Facts, before: seq<Word>, after: seq<Word>, base: Reg, stride: Option<Reg>)
    requires Sound(facts, before, after) && facts.values[base].Some?
    requires stride.Some? ==> stride.value !in facts.written
    requires facts.values[base].value.index.Some? ==> facts.values[base].value.index == stride
    ensures StrideOf(stride, after) == StrideOf(stride, before)
    ensures var e := facts.values[base].value;
            after[base] == Wrap(before[base] + e.constant + e.coefficient * StrideOf(stride, before))
  {
    var e := facts.values[base].value;
    assert e.Normal();
    if e.index.Some? {
      SignedMultiplier(before[base] + e.constant, e.coefficient, before[e.index.value]);
    }
  }

  lemma NoCopies(base: Word, a: int, b: int, s: int)
    ensures Wrap(base + 0 * a + 0 * b * s) == base
  {
  }

  lemma MoreCopies(base: int, m: nat, a: int, b: int, s: int)
    requires m > 0
    ensures Wrap(Wrap(base + (m - 1) * a + (m - 1) * b * s) + a + b * s) == Wrap(base + m * a + m * b * s)
  {
    hide Wrap;
    Distribute(m - 1, 1, a);
    Distribute(m - 1, 1, b);
    Distribute((m - 1) * b, b, s);
    SumMoves(base, (m - 1) * a + (m - 1) * b * s, a + b * s);
  }

  /** A bound on one copy, moved m copies along, is inside the expanded bounds. */
  lemma CopyBounds(w: Window, copies: nat, m: nat, d: int, c: int, size: Size)
    requires w.first <= d && d + size <= w.end && w.firstCoefficient <= c <= w.lastCoefficient
    requires m < copies || !w.Advances()
    requires Expanded(w, copies).enabled
    ensures var x := Expanded(w, copies);
            x.first <= m * w.advance + d && m * w.advance + d + size <= x.end &&
            x.firstCoefficient <= m * w.strideAdvance + c <= x.lastCoefficient &&
            x.base == w.base && x.stride == w.stride && w.enabled
  {
    if w.Advances() {
      BetweenCopies(m, copies, w.advance);
      BetweenCopies(m, copies, w.strideAdvance);
    } else {
      assert m * w.advance == 0 && m * w.strideAdvance == 0;
    }
  }

  lemma BetweenCopies(m: nat, copies: nat, a: int)
    requires m < copies
    ensures Min(0, a * (copies - 1)) <= m * a <= Max(0, a * (copies - 1))
  {
    assert a * (copies - 1) == (copies - 1) * a;
    if a >= 0 {
      Scale(m, 0, a);
      Scale(copies - 1, m, a);
    } else {
      Scale(m, 0, -a);
      Scale(copies - 1, m, -a);
      assert m * -a == -(m * a) && (copies - 1) * -a == -((copies - 1) * a);
    }
  }

  lemma CopyForm(base: int, m: nat, a: int, b: int, d: int, c: int, s: int)
    ensures Wrap(Wrap(base + m * a + m * b * s) + d + c * s) == Wrap(base + (m * a + d) + (m * b + c) * s)
  {
    Distribute(m * b, c, s);
    SumMoves(base, m * a + m * b * s, d + c * s);
  }

  /** Copies and strides move every access by multiples of its alignment. */
  lemma CopyResidue(m: nat, a: int, b: int, d: int, c: int, s: int, residue: int, g: Alignment)
    requires a % g == 0 && b % g == 0 && c % g == 0 && (d - residue) % g == 0
    ensures ((m * a + d) + (m * b + c) * s - residue) % g == 0
  {
    MultipleScaled(m, a, g);
    MultipleScaled(m, b, g);
    MultiplesAdd(m * b, c, g);
    MultipleScaled(s, m * b + c, g);
    MultiplesAdd(m * a, s * (m * b + c), g);
    MultiplesAdd(m * a + s * (m * b + c), d - residue, g);
    Rearranged(m * a, m * b + c, s, d, residue);
  }

  lemma Rearranged(x: int, y: int, s: int, d: int, residue: int)
    ensures (x + d) + y * s - residue == x + s * y + (d - residue)
  {
  }

  /** The access at step i of copy m, over the registers of the group's entry. */
  lemma FormedAtCopy(w: Window, a: Access, facts: Facts, entry: seq<Word>, now: seq<Word>, m: nat, copies: nat, ea: Word)
    requires |entry| == |now| == 16 && Wellformed(facts) && Holds(w, a, facts) && Formed(a, now, ea) && Sane(a)
    requires now[w.base] == Wrap(entry[w.base] + m * w.advance + m * w.strideAdvance * StrideOf(w.stride, entry))
    requires StrideOf(w.stride, now) == StrideOf(w.stride, entry)
    requires m < copies || !w.Advances()
    requires var x := Expanded(w, copies); Armed(x) && x.enabled && GuardPasses(x, entry)
    ensures InPage(ea, a.key.size, entry[a.key.base])
    ensures (ea - entry[a.key.base] - a.residue) % a.key.Aligned() == 0
  {
    hide GuardPasses, Armed, Expanded, Wrap, InPage;
    var d: int, c: int :| FormedBy(a, now, ea, d, c);
    var s := StrideOf(w.stride, entry);
    assert c * StrideOf(a.stride, now) == c * s;
    hide StrideOf, Sane;
    CopyBounds(w, copies, m, d, c, a.key.size);
    CopyForm(entry[w.base], m, w.advance, w.strideAdvance, d, c, s);
    CopyResidue(m, w.advance, w.strideAdvance, d, c, s, a.residue, a.key.Aligned());
    hide Holds, FormedBy;
    BoxInPage(Expanded(w, copies), entry, m * w.advance + d, m * w.strideAdvance + c, a.key.size);
    Anchored(ea, entry[w.base], (m * w.advance + d) + (m * w.strideAdvance + c) * s, a.key.size);
  }

  lemma Anchored(ea: Word, base: Word, offset: int, size: Size)
    requires ea == Wrap(base + offset) && 0 <= base % PAGE + offset && base % PAGE + offset + size <= PAGE
    ensures InPage(ea, size, base) && ea == base + offset
  {
    PageLocal(base, offset);
  }

  /** A passed window guard: every access any copy of the cycle makes, up to the
      expanded count, or in any later group when the base does not move, lies
      wholly in the page of the base at entry and keeps the window's residue
      from that base; an index moves it by less than a page. A run may leave the
      last copy at any step. */
  lemma WindowGuardSound(p: seq<PathStep>, entries: seq<seq<Word>>, at: seq<seq<Word>>, i: nat, w: Window, copies: nat)
    requires Copies(p, entries) && i < |p| && Executes(p[..i], at, 0) && at[0] == entries[|entries| - 1]
    requires Bounded(p[i].key) && Formable(p[i].key.value)
    requires var s, key := AnalyseAll(START, p), p[i].key.value;
             var n := Position(s.accesses, key);
             n < |s.accesses| && Holds(w, s.accesses[n], s.facts)
    requires |entries| - 1 < copies || !w.Advances()
    requires var x := Expanded(w, copies); Armed(x) && x.enabled && GuardPasses(x, entries[0])
    ensures |at[i]| == 16
    ensures var key, anchor := p[i].key.value, entries[0][p[i].key.value.base];
            InPage(EffectiveAddress(key, at[i]), key.size, anchor) &&
            (EffectiveAddress(key, at[i]) - anchor - w.residue) % key.Aligned() == 0 &&
            (key.index.Some? ==> Offset(key, at[i]) < PAGE)
  {
    hide GuardPasses, Armed, Expanded, EffectiveAddress, Offset, Tracks, AnalyseAll, Formed;
    var s, key, m := AnalyseAll(START, p), p[i].key.value, |entries| - 1;
    var a := s.accesses[Position(s.accesses, key)];
    if m > 0 {
      assert CopyRuns(p, entries, m - 1);
    }
    StartTracks(entries[m]);
    AccessCovered(START, p, i, entries[m], at);
    BaseAtCopy(p, entries, m, key.base, w.stride);
    FormedAtCopy(w, a, s.facts, entries[0], entries[m], m, copies, EffectiveAddress(key, at[i]));
  }
}
