/** The compile-scoped decode window and its memoised dead-flag proofs.

Every answer of FlagsDead equals FlagScan.Scan on the instruction source, so
neither the sliding window nor any remembered proof can be observed.
 */
module InstructionWindow {
  import opened Wrappers
  import opened Isa
  import opened FlagScan

  datatype FlagProofKind = Overwrite | TerminalFailure | BoundedFailure
  datatype FlagProof = FlagProof(reusablePrefix: nat, instructions: nat, ticks: nat, kind: FlagProofKind)

  const NO_PROOFS: seq<Option<FlagProof>> := [None, None]

  /** The controls a cached proof of slot k was searched under. */
  function SlotControls(k: nat): Controls {
    if k == 0 then {} else COMPARISON_CONTROLS
  }

  function Untimed(e: Decoded): Decoded {
    e.(ticks := None)
  }

  /** A cached decode is the source's own decode, with correct paid timing. */
  predicate Faithful(v: View, e: Decoded) {
    && Decode(v, e.pc, e.it, true) == Some(Untimed(e))
    && (e.ticks.Some? ==> e.word.Some? && e.ticks.value == Cost(v, e))
  }

  /** An instruction liveness may cross falls through to the next window entry. */
  predicate Sequential(v: View, e: Decoded, pc: nat, it: nat) {
    CrossEffects(e.instruction, COMPARISON_CONTROLS).boundary
    || (pc == e.pc + e.instruction.size && it == NextIt(v, e.instruction, e.it))
  }

  predicate Linked(v: View, w: seq<Decoded>, k: int) {
    0 < k < |w| ==> Sequential(v, w[k - 1], w[k].pc, w[k].it)
  }

  ghost predicate Chained(v: View, w: seq<Decoded>) {
    forall k :: Linked(v, w, k)
  }

  function FullQuery(e: Decoded, controls: Controls): Query {
    Query(ALL_FLAGS, e.pc, e.it, controls)
  }

  /** The search crosses e to its successor f with every bit still live. */
  ghost predicate Transparent(v: View, e: Decoded, f: Decoded, controls: Controls) {
    && e.word.Some?
    && Inspect(v, FullQuery(e, controls)) == Advance(Cost(v, e), FullQuery(f, controls))
  }

  ghost predicate TransparentAt(v: View, w: seq<Decoded>, i: int, controls: Controls) {
    0 <= i < |w| - 1 && Transparent(v, w[i], w[i + 1], controls)
  }

  function Paid(e: Decoded): nat {
    if e.ticks.Some? then e.ticks.value else 0
  }

  /** Ticks already priced over the first k entries. */
  function PaidPrefix(w: seq<Decoded>, k: nat): nat
    requires k <= |w|
  {
    if k == 0 then 0 else PaidPrefix(w, k - 1) + Paid(w[k - 1])
  }

  lemma {:induction false} PaidAgrees(w: seq<Decoded>, w': seq<Decoded>, k: nat)
    requires k <= |w| && k <= |w'|
    requires forall i :: 0 <= i < k ==> w[i].ticks == w'[i].ticks
    ensures PaidPrefix(w, k) == PaidPrefix(w', k)
  {
    if k != 0 {
      PaidAgrees(w, w', k - 1);
    }
  }

  lemma {:induction false} PaidTail(w: seq<Decoded>, k: nat)
    requires 0 < k <= |w|
    ensures PaidPrefix(w, k) == Paid(w[0]) + PaidPrefix(w[1..], k - 1)
  {
    if k != 1 {
      PaidTail(w, k - 1);
    }
  }

  /** Does the answer found, at limits n and t, agree with the proof? */
  predicate Meets(p: FlagProof, n: nat, t: nat, found: bool) {
    match p.kind
    case Overwrite => found <==> (p.instructions <= n && p.ticks <= t)
    case TerminalFailure => !found
    case BoundedFailure => (n <= p.instructions || t <= p.ticks) ==> !found
  }

  /** What a remembered proof says of every limit pair at the head of w. */
  ghost predicate Says(v: View, q: Query, p: FlagProof) {
    forall n: nat, t: nat {:trigger AtLimits(n, t)} :: AtLimits(n, t) ==> Meets(p, n, t, Scan(v, q, n, t))
  }

  /** The prefix a proof may be reused on: transparent, and paid unless terminal. */
  ghost predicate Reusable(v: View, w: seq<Decoded>, p: FlagProof, controls: Controls) {
    && 1 <= p.reusablePrefix <= |w|
    && (forall i :: 0 <= i < p.reusablePrefix - 1 ==> TransparentAt(v, w, i, controls))
    && (!p.kind.TerminalFailure? ==>
          (forall i :: 0 <= i < p.reusablePrefix - 1 ==> w[i].ticks.Some?)
          && PaidPrefix(w, p.reusablePrefix - 1) <= p.ticks)
  }

  ghost predicate ProofHolds(v: View, w: seq<Decoded>, p: Option<FlagProof>, controls: Controls) {
    p.Some? ==> Reusable(v, w, p.value, controls) && Says(v, FullQuery(w[0], controls), p.value)
  }

  /** One taken instruction: the proof that describes the remaining suffix. */
  function Slide(p: FlagProof, cost: nat): Option<FlagProof>
    requires p.reusablePrefix >= 1
    requires p.reusablePrefix > 1 && !p.kind.TerminalFailure? ==> cost <= p.ticks
  {
    if p.reusablePrefix == 1 then None
    else if p.kind.TerminalFailure? then Some(p.(reusablePrefix := p.reusablePrefix - 1))
    else Some(p.(reusablePrefix := p.reusablePrefix - 1,
                 instructions := if p.instructions != 0 then p.instructions - 1 else 0,
                 ticks := p.ticks - cost))
  }

  /** Sliding never underflows the remembered ticks and keeps the proof true. */
  lemma SlideHolds(v: View, w: seq<Decoded>, p: FlagProof, controls: Controls)
    requires p.reusablePrefix > 1 && ProofHolds(v, w, Some(p), controls)
    requires forall e <- w :: Faithful(v, e)
    ensures !p.kind.TerminalFailure? ==> w[0].ticks.Some? && w[0].ticks.value <= p.ticks
    ensures ProofHolds(v, w[1..], Slide(p, if p.kind.TerminalFailure? then 0 else w[0].ticks.value), controls)
  {
    var q, r := FullQuery(w[0], controls), FullQuery(w[1], controls);
    assert TransparentAt(v, w, 0, controls);
    assert w[0] in w;
    var cost := Cost(v, w[0]);
    LeadsOne(v, q);
    assert Leads(v, q, r, 1, cost);
    var tail := w[1..];
    forall i | 0 <= i < p.reusablePrefix - 2
      ensures TransparentAt(v, tail, i, controls)
    {
      assert TransparentAt(v, w, i + 1, controls);
    }
    var paid := if p.kind.TerminalFailure? then 0 else w[0].ticks.value;
    if !p.kind.TerminalFailure? {
      PaidTail(w, p.reusablePrefix - 1);
    }
    var slid := Slide(p, paid).value;
    forall n: nat, t: nat {:trigger AtLimits(n, t)} | AtLimits(n, t)
      ensures Meets(slid, n, t, Scan(v, r, n, t))
    {
      assert AtLimits(n + 1, t + cost);
      assert Scan(v, q, n + 1, t + cost) <==> Scan(v, r, n, t);
    }
  }

  /** Pricing an unpriced entry leaves every remembered proof true. */
  lemma PriceHolds(v: View, w: seq<Decoded>, k: nat, e: Decoded, p: Option<FlagProof>, controls: Controls)
    requires k < |w| && Untimed(e) == Untimed(w[k]) && w[k].ticks.None?
    requires ProofHolds(v, w, p, controls)
    ensures ProofHolds(v, w[k := e], p, controls)
  {
    if p.Some? {
      var w', proof := w[k := e], p.value;
      forall i | 0 <= i < proof.reusablePrefix - 1
        ensures TransparentAt(v, w', i, controls)
      {
        assert TransparentAt(v, w, i, controls);
      }
      if !proof.kind.TerminalFailure? {
        PaidAgrees(w, w', proof.reusablePrefix - 1);
      }
    }
  }

  /** Lookahead that extends the window leaves every remembered proof true. */
  lemma ExtendHolds(v: View, w: seq<Decoded>, e: Decoded, p: Option<FlagProof>, controls: Controls)
    requires ProofHolds(v, w, p, controls)
    ensures ProofHolds(v, w + [e], p, controls)
  {
    if p.Some? {
      PaidAgrees(w, w + [e], p.value.reusablePrefix - 1);
      forall i | 0 <= i < p.value.reusablePrefix - 1
        ensures TransparentAt(v, w + [e], i, controls)
      {
        assert TransparentAt(v, w, i, controls);
      }
    }
  }

  /** The checks made on a cached decode are those made on a fresh one, even for
      an entry first decoded with permission to straddle its region. */
  lemma CachedInspection(v: View, e: Decoded, q: Query)
    requires Faithful(v, e) && SizesAgree(v.source) && q.pc == e.pc && q.it == e.it
    ensures v.regionEnd(e.pc).Some?
    ensures Inspect(v, q) ==
      var effects := CrossEffects(e.instruction, q.guarded);
      if e.word.None? || q.pc + e.instruction.size > v.regionEnd(q.pc).value || effects.boundary ||
         effects.read * q.live != {} || Cost(v, e) == 0
      then Terminal
      else Advance(Cost(v, e),
                   Query(q.live - effects.guaranteedWrite, q.pc + e.instruction.size,
                         NextIt(v, e.instruction, q.it), ControlsAfter(e.instruction, q.guarded)))
  {
    if e.word.Some? && v.thumb && v.source.isWide(e.pc) {
      assert v.source.fetch(true, e.pc) == Some(e.word.value);
    }
  }

  /** The invariant of a window as a relation between its fields. */
  ghost predicate Consistent(v: View, pending: seq<Decoded>, consumed: nat, proofs: seq<Option<FlagProof>>) {
    && SizesAgree(v.source)
    && consumed <= |pending|
    && (forall e <- pending :: Faithful(v, e))
    && Chained(v, pending)
    && |proofs| == 2
    && (forall k :: 0 <= k < 2 ==> ProofHolds(v, pending[consumed..], proofs[k], SlotControls(k)))
  }

  lemma Held(v: View, pending: seq<Decoded>, consumed: nat, proofs: seq<Option<FlagProof>>, k: nat)
    requires Consistent(v, pending, consumed, proofs) && k < |pending|
    ensures SizesAgree(v.source) && Faithful(v, pending[k])
  {
    hide Faithful, SizesAgree, ProofHolds, Chained;
    assert pending[k] in pending;
  }

  lemma SameCost(v: View, e: Decoded, priced: Decoded)
    requires Untimed(e) == Untimed(priced) && e.word.Some?
    ensures priced.word.Some?
    ensures Cost(v, e) == Cost(v, priced)
  {
    assert Untimed(e).word == e.word && Untimed(priced).word == priced.word && Untimed(e).pc == e.pc;
  }

  lemma Undecoded(v: View, q: Query)
    requires Decode(v, q.pc, q.it, false).None?
    ensures Inspect(v, q) == Terminal
  {
  }

  class InstructionWindow {
    const source: Source
    var regionEnd: nat -> Option<nat>
    var thumb: bool
    var pending: seq<Decoded>
    var consumed: nat
    var retainCycle: bool
    var fullFlagsDead: seq<Option<FlagProof>>

    constructor (source: Source, regionEnd: nat -> Option<nat>, thumb: bool, retainCycle: bool)
      requires SizesAgree(source)
      ensures Valid() && Current() == View(source, regionEnd, thumb)
      ensures pending == [] && this.retainCycle == retainCycle
    {
      this.source, this.regionEnd, this.thumb := source, regionEnd, thumb;
      pending, consumed, this.retainCycle, fullFlagsDead := [], 0, retainCycle, NO_PROOFS;
    }

    function Current(): View
      reads this
    {
      View(source, regionEnd, thumb)
    }

    ghost predicate Valid()
      reads this
    {
      && Consistent(Current(), pending, consumed, fullFlagsDead)
      && (!retainCycle ==> consumed == 0)
    }

    /** The caller follows straight-line flow when it leaves the decoded window. */
    ghost predicate Follows(pc: nat, it: nat)
      reads this
    {
      0 < consumed == |pending| ==> Sequential(Current(), pending[consumed - 1], pc, it)
    }

    /** Decodes and NZCV proofs are mode-specific. */
    method Mode(thumb: bool)
      requires Valid()
      modifies this
      ensures Valid() && Current() == old(Current()).(thumb := thumb) && retainCycle == old(retainCycle)
      ensures if thumb == old(this.thumb)
              then pending == old(pending) && consumed == old(consumed) && fullFlagsDead == old(fullFlagsDead)
              else pending == [] && fullFlagsDead == NO_PROOFS
    {
      if this.thumb == thumb {
        return;
      }
      this.thumb := thumb;
      pending, consumed, fullFlagsDead := [], 0, NO_PROOFS;
    }

    method Regions(regionEnd: nat -> Option<nat>)
      requires Valid()
      modifies this
      ensures Valid() && Current() == old(Current()).(regionEnd := regionEnd)
      ensures pending == [] && fullFlagsDead == NO_PROOFS && retainCycle == old(retainCycle)
    {
      this.regionEnd := regionEnd;
      pending, consumed, fullFlagsDead := [], 0, NO_PROOFS;
    }

    /** Forget a window that does not start at the requested instruction. */
    method Match(pc: nat, it: nat)
      requires Valid()
      modifies this
      ensures Valid() && Current() == old(Current())
      ensures consumed < |pending| ==> pending[consumed].pc == pc && pending[consumed].it == it
      ensures if old(consumed < |pending| && (pending[consumed].pc != pc || pending[consumed].it != it))
              then pending == [] && !retainCycle && fullFlagsDead == NO_PROOFS
              else pending == old(pending) && consumed == old(consumed) &&
                   retainCycle == old(retainCycle) && fullFlagsDead == old(fullFlagsDead)
    {
      if consumed < |pending| && (pending[consumed].pc != pc || pending[consumed].it != it) {
        pending, consumed, retainCycle, fullFlagsDead := [], 0, false, NO_PROOFS;
      }
    }

    /** Rewind to the start of an accepted copy of the entry cycle. */
    method RepeatCycle()
      requires Valid()
      modifies this
      ensures Valid() && Current() == old(Current()) && retainCycle == old(retainCycle)
      ensures if old(retainCycle && consumed != 0)
              then pending == old(pending[..consumed]) && consumed == 0 && fullFlagsDead == NO_PROOFS
              else pending == old(pending) && consumed == old(consumed) && fullFlagsDead == old(fullFlagsDead)
    {
      if !retainCycle || consumed == 0 {
        return;
      }
      ChainedPart(Current(), pending, 0, consumed);
      pending := pending[..consumed];
      consumed := 0;
      fullFlagsDead := NO_PROOFS;
    }

    /** Consume one instruction: the source's own decode, however it was cached. */
    method Take(pc: nat, it: nat, allowStraddle: bool) returns (out: Option<Decoded>)
      requires Valid() && Follows(pc, it)
      modifies this
      ensures Valid() && Current() == old(Current())
      ensures out.Some? ==> Faithful(Current(), out.value) && out.value.pc == pc && out.value.it == it
      ensures Decode(Current(), pc, it, allowStraddle).Some? ==> out.Some?
      ensures retainCycle && out.Some? ==> 0 < consumed && pending[consumed - 1] == out.value
      ensures old(consumed < |pending| && pending[consumed].pc == pc && pending[consumed].it == it) ==>
                out == Some(old(pending[consumed])) &&
                pending[consumed..] == old(pending[consumed + 1..]) && retainCycle == old(retainCycle)
    {
      hide EffectsOf, ProofHolds, SizesAgree;
      Match(pc, it);
      if consumed == |pending| {
        out := Decode(Current(), pc, it, allowStraddle);
        assert pending[consumed..] == [];
        if retainCycle && out.Some? {
          ChainedGrows(Current(), pending, out.value);
          pending := pending + [out.value];
          consumed := consumed + 1;
          assert pending[consumed..] == [];
        }
        return;
      }
      out := Some(pending[consumed]);
      assert out.value in pending;
      ghost var w := pending[consumed..];
      SlideProofs(out.value, w);
      if retainCycle {
        consumed := consumed + 1;
      } else {
        ChainedPart(Current(), pending, 1, |pending|);
        pending := pending[1..|pending|];
      }
      assert pending[consumed..] == w[1..];
    }

    /** Every cached proof advances with the taken instruction. */
    method SlideProofs(taken: Decoded, ghost w: seq<Decoded>)
      requires |fullFlagsDead| == 2 && |w| > 0 && taken == w[0]
      requires forall e <- w :: Faithful(Current(), e)
      requires forall k :: 0 <= k < 2 ==> ProofHolds(Current(), w, fullFlagsDead[k], SlotControls(k))
      modifies `fullFlagsDead
      ensures |fullFlagsDead| == 2
      ensures forall k :: 0 <= k < 2 ==> ProofHolds(Current(), w[1..], fullFlagsDead[k], SlotControls(k))
      ensures forall k :: 0 <= k < 2 && old(fullFlagsDead[k].Some? && fullFlagsDead[k].value.reusablePrefix > 1) ==>
                            fullFlagsDead[k].Some?
    {
      ghost var v := Current();
      var k := 0;
      while k < 2
        invariant 0 <= k <= 2 && |fullFlagsDead| == 2 && v == Current()
        invariant forall j :: 0 <= j < k ==> ProofHolds(v, w[1..], fullFlagsDead[j], SlotControls(j))
        invariant forall j :: k <= j < 2 ==> fullFlagsDead[j] == old(fullFlagsDead[j])
        invariant forall j :: 0 <= j < k && old(fullFlagsDead[j].Some? && fullFlagsDead[j].value.reusablePrefix > 1) ==>
                                fullFlagsDead[j].Some?
      {
        if fullFlagsDead[k].Some? {
          var proof := fullFlagsDead[k].value;
          if proof.reusablePrefix > 1 {
            SlideHolds(v, w, proof, SlotControls(k));
          }
          var paid := if proof.reusablePrefix == 1 || proof.kind.TerminalFailure? then 0 else taken.ticks.value;
          fullFlagsDead := fullFlagsDead[k := Slide(proof, paid)];
        }
        k := k + 1;
      }
    }

    /** Decode the k-th instruction ahead when the window does not hold it yet. */
    method LookAhead(k: nat, pc: nat, it: nat) returns (found: bool)
      requires Valid() && consumed + k <= |pending|
      requires consumed + k < |pending| ==> pending[consumed + k].pc == pc && pending[consumed + k].it == it
      requires 0 < consumed + k == |pending| ==> Sequential(Current(), pending[consumed + k - 1], pc, it)
      modifies `pending
      ensures Valid()
      ensures found ==> consumed + k < |pending| && pending[consumed + k].pc == pc && pending[consumed + k].it == it
      ensures !found ==> Decode(Current(), pc, it, false).None? && pending == old(pending)
      ensures |pending| >= old(|pending|) && pending[..old(|pending|)] == old(pending)
      ensures found && old(|pending|) == consumed + k ==> |pending| == old(|pending|) + 1
      ensures found && old(|pending|) > consumed + k ==> pending == old(pending)
    {
      found := true;
      if consumed + k == |pending| {
        var entry := Decode(Current(), pc, it, false);
        if entry.None? {
          return false;
        }
        ghost var w := pending[consumed..];
        forall j | 0 <= j < 2
          ensures ProofHolds(Current(), w + [entry.value], fullFlagsDead[j], SlotControls(j))
        {
          ExtendHolds(Current(), w, entry.value, fullFlagsDead[j], SlotControls(j));
        }
        ChainedGrows(Current(), pending, entry.value);
        pending := pending + [entry.value];
        assert pending[consumed..] == w + [entry.value];
      }
    }

    /** Price a cached decode once; a retained original keeps the paid timing. */
    method Price(k: nat) returns (cost: nat)
      requires Valid() && consumed + k < |pending| && pending[consumed + k].word.Some?
      modifies `pending
      ensures Valid() && |pending| == old(|pending|)
      ensures forall j :: 0 <= j < |pending| ==> Untimed(pending[j]) == Untimed(old(pending[j]))
      ensures forall j :: consumed <= j < |pending| && j != consumed + k ==> pending[j] == old(pending[j])
      ensures old(pending[consumed + k].ticks.Some?) ==> pending[consumed + k] == old(pending[consumed + k])
      ensures pending[consumed + k].word.Some?
      ensures pending[consumed + k].ticks == Some(cost) && cost == Cost(Current(), pending[consumed + k])
    {
      hide EffectsOf, Decode, ProofHolds, Chained, SizesAgree;
      var v := Current();
      var entry := pending[consumed + k];
      assert entry in pending;
      if entry.ticks.None? {
        var priced := entry.(ticks := Some(Cost(v, entry)));
        ghost var w := pending[consumed..];
        forall j | 0 <= j < 2
          ensures ProofHolds(v, w[k := priced], fullFlagsDead[j], SlotControls(j))
        {
          PriceHolds(v, w, k, priced, fullFlagsDead[j], SlotControls(j));
        }
        ChainedUpdate(v, pending, consumed + k, priced);
        pending := pending[consumed + k := priced];
        assert pending[consumed..] == w[k := priced];
      }
      cost := pending[consumed + k].ticks.value;
      assert pending[consumed + k] in pending;
      RetainPrice(pending[consumed + k]);
    }

    /** Price a taken copy; its retained original keeps the paid timing. */
    method Timing(entry: Decoded) returns (timed: Decoded)
      requires Valid() && Faithful(Current(), entry) && entry.word.Some?
      modifies `pending
      ensures Valid() && timed == entry.(ticks := Some(Cost(Current(), entry))) && Faithful(Current(), timed)
      ensures |pending| == old(|pending|) && pending[consumed..] == old(pending[consumed..])
      ensures forall j :: 0 <= j < |pending| ==> Untimed(pending[j]) == Untimed(old(pending[j]))
      ensures retainCycle && 0 < consumed && pending[consumed - 1].pc == entry.pc && pending[consumed - 1].it == entry.it ==>
                pending[consumed - 1] == timed
    {
      timed := if entry.ticks.None? then entry.(ticks := Some(Cost(Current(), entry))) else entry;
      assert Untimed(timed) == Untimed(entry);
      RetainPrice(timed);
    }

    method RetainPrice(entry: Decoded)
      requires Valid() && Faithful(Current(), entry) && entry.ticks.Some?
      modifies `pending
      ensures Valid() && |pending| == old(|pending|)
      ensures forall j :: 0 <= j < |pending| ==> Untimed(pending[j]) == Untimed(old(pending[j]))
      ensures pending[consumed..] == old(pending[consumed..])
      ensures forall j :: consumed <= j < |pending| ==> pending[j] == old(pending[j])
      ensures retainCycle && 0 < consumed && pending[consumed - 1].pc == entry.pc && pending[consumed - 1].it == entry.it ==>
                pending[consumed - 1] == entry
    {
      if retainCycle && consumed != 0 {
        var original := pending[consumed - 1];
        if original.pc == entry.pc && original.it == entry.it {
          assert original in pending;
          var paid := original.(ticks := entry.ticks);
          assert Untimed(paid) == Untimed(original) == Untimed(entry);
          ghost var w := pending[consumed..];
          ChainedUpdate(Current(), pending, consumed - 1, paid);
          pending := pending[consumed - 1 := paid];
          assert pending[consumed..] == w;
        }
      }
    }

    /** Remember a proof for the window's head. */
    method Remember(slot: nat, k: nat, proof: FlagProof)
      requires Valid() && slot < 2 && consumed + k <= |pending|
      requires proof.reusablePrefix != 0 ==>
                 Reusable(Current(), pending[consumed..consumed + k], proof, SlotControls(slot)) &&
                 Says(Current(), FullQuery(pending[consumed], SlotControls(slot)), proof)
      modifies `fullFlagsDead
      ensures Valid()
      ensures fullFlagsDead == if proof.reusablePrefix != 0 then old(fullFlagsDead)[slot := Some(proof)]
                               else old(fullFlagsDead)
    {
      if proof.reusablePrefix == 0 {
        return;
      }
      assert pending[consumed..][..k] == pending[consumed..consumed + k];
      ReusableExtends(Current(), pending[consumed..], k, proof, SlotControls(slot));
      fullFlagsDead := fullFlagsDead[slot := Some(proof)];
    }

    /** Are the live bits overwritten before any observation, within both limits?
        The answer is the plain search of the source, whatever was remembered. */
    method FlagsDead(live: set<Flag>, nextPc: nat, nextIt: nat, remaining: nat, ticks: nat, guarded: Controls)
      returns (dead: bool)
      requires Valid() && Follows(nextPc, nextIt)
      modifies this
      ensures Valid() && Current() == old(Current())
      ensures dead <==> live != {} && Scan(Current(), Query(live, nextPc, nextIt, guarded), remaining, ticks)
    {
      if live == {} {
        return false;
      }
      Match(nextPc, nextIt);
      var first := Query(live, nextPc, nextIt, guarded);
      var caching := live == ALL_FLAGS && (guarded == {} || guarded == COMPARISON_CONTROLS);
      var slot := if guarded == {} then 0 else 1;
      if caching && fullFlagsDead[slot].Some? {
        var proof := fullFlagsDead[slot].value;
        assert first == FullQuery(pending[consumed..][0], SlotControls(slot));
        assert AtLimits(remaining, ticks);
        if proof.kind.TerminalFailure? {
          return false;
        }
        if proof.kind.Overwrite? {
          return proof.instructions <= remaining && proof.ticks <= ticks;
        }
        if remaining <= proof.instructions || ticks <= proof.ticks {
          return false;
        }
        fullFlagsDead := fullFlagsDead[slot := None];
      }
      dead := SearchFlags(first, remaining, ticks, caching, slot);
    }

    /** Inspect the k-th instruction ahead through the window. */
    method InspectAhead(k: nat, q: Query) returns (step: Inspection)
      requires Valid() && consumed + k <= |pending|
      requires consumed + k < |pending| ==> pending[consumed + k].pc == q.pc && pending[consumed + k].it == q.it
      requires 0 < consumed + k == |pending| ==> Sequential(Current(), pending[consumed + k - 1], q.pc, q.it)
      modifies `pending
      ensures Valid() && step == Inspect(Current(), q)
      ensures consumed + k <= |pending| && pending[consumed..consumed + k] == old(pending[consumed..consumed + k])
      ensures |pending| >= old(|pending|)
      ensures forall j :: 0 <= j < old(|pending|) ==> Untimed(pending[j]) == Untimed(old(pending[j]))
      ensures consumed + k < |pending| ==> pending[consumed + k].pc == q.pc && pending[consumed + k].it == q.it
      ensures step.Advance? ==>
                consumed + k < |pending| && pending[consumed + k].word.Some? &&
                pending[consumed + k].ticks == Some(step.cost) && step.cost == Cost(Current(), pending[consumed + k])
    {
      hide EffectsOf, Consistent, Faithful, SizesAgree, Sequential, Decode, Inspect, CrossEffects;
      ghost var s := pending[consumed..consumed + k];
      var found := LookAhead(k, q.pc, q.it);
      assert pending[consumed..consumed + k] == s;
      if !found {
        Undecoded(Current(), q);
        return Terminal;
      }
      step := InspectHeld(k, q);
      assert pending[consumed..consumed + k] == s;
    }

    /** Inspect an instruction the window holds, pricing it when the source does. */
    method InspectHeld(k: nat, q: Query) returns (step: Inspection)
      requires Valid() && consumed + k < |pending| && pending[consumed + k].pc == q.pc && pending[consumed + k].it == q.it
      modifies `pending
      ensures Valid() && step == Inspect(Current(), q) && |pending| == old(|pending|)
      ensures forall j :: consumed <= j < |pending| && j != consumed + k ==> pending[j] == old(pending[j])
      ensures forall j :: 0 <= j < |pending| ==> Untimed(pending[j]) == Untimed(old(pending[j]))
      ensures step.Advance? ==>
                pending[consumed + k].word.Some? &&
                pending[consumed + k].ticks == Some(step.cost) && step.cost == Cost(Current(), pending[consumed + k])
    {
      hide EffectsOf, Consistent, Faithful, SizesAgree, Sequential, Decode, Inspect, CrossEffects;
      var entry := pending[consumed + k];
      Held(Current(), pending, consumed, fullFlagsDead, consumed + k);
      CachedInspection(Current(), entry, q);
      var effects := CrossEffects(entry.instruction, q.guarded);
      if entry.word.None? || q.pc + entry.instruction.size > regionEnd(q.pc).value ||
         effects.boundary || effects.read * q.live != {} {
        return Terminal;
      }
      var cost := Price(k);
      SameCost(Current(), entry, pending[consumed + k]);
      if cost == 0 {
        return Terminal;
      }
      step := Advance(cost, Query(q.live - effects.guaranteedWrite, q.pc + entry.instruction.size,
                                  NextIt(Current(), entry.instruction, q.it),
                                  ControlsAfter(entry.instruction, q.guarded)));
    }

    /** A search that stops inside its limits answers and remembers its verdict. */
    method Conclude(first: Query, q: Query, i: nat, ticks: nat, left: nat, ghost remaining: nat, step: Inspection,
                    reusable: nat, covered: nat, caching: bool, slot: nat) returns (dead: bool)
      requires Valid() && slot < 2 && i < remaining && left <= ticks && step == Inspect(Current(), q)
      requires step.Advance? && step.cost <= left ==> step.next.live == {}
      requires caching ==> first.guarded == SlotControls(slot)
      requires Searching(Current(), pending, consumed, first, q, i, ticks - left, reusable, caching)
      requires covered == if consumed + i < |pending|
                          then Covered(pending[consumed..consumed + i], first, q, reusable, caching) else reusable
      modifies `fullFlagsDead
      ensures Valid()
      ensures dead <==> Scan(Current(), first, remaining, ticks)
    {
      hide EffectsOf, Crossed, Consistent, Scan, Leads, Inspect, Says, Reusable, CoversAll;
      SearchingCovers(Current(), pending, consumed, first, q, i, ticks - left, reusable, caching);
      var inspected: nat := if consumed + i < |pending| then i + 1 else i;
      var proof := Verdict(step, covered, i, ticks, left);
      VerdictSays(Current(), first, q, i, ticks, left, step, proof);
      SaysHere(Current(), first, proof, remaining, ticks);
      CoversProof(Current(), pending[consumed..consumed + inspected], first, ticks - left, proof);
      Remember(slot, inspected, proof);
      dead := proof.kind.Overwrite?;
    }

    /** Inspect the next instruction of a search, which leaves the search as it was. */
    method Inspected(first: Query, q: Query, i: nat, ghost spent: nat, ghost reusable: nat, ghost caching: bool)
      returns (step: Inspection)
      requires Valid()
      requires Searching(Current(), pending, consumed, first, q, i, spent, reusable, caching)
      modifies `pending
      ensures Valid() && step == Inspect(Current(), q)
      ensures Searching(Current(), pending, consumed, first, q, i, spent, reusable, caching)
      ensures step.Advance? ==>
                consumed + i < |pending| && Faithful(Current(), pending[consumed + i]) &&
                pending[consumed + i].ticks == Some(step.cost)
    {
      hide EffectsOf, Crossed, Leads, Inspect, ProofHolds, Chained, SizesAgree, Decode, Sequential;
      ghost var before := pending;
      step := InspectAhead(i, q);
      SearchingStable(Current(), before, pending, consumed, first, q, i, spent, reusable, caching);
      if step.Advance? {
        assert pending[consumed + i] in pending;
      }
    }

    /** One round of the search: an answer, or the state of a longer search. */
    method Probe(first: Query, q: Query, i: nat, ticks: nat, left: nat, ghost remaining: nat, reusable: nat,
                 caching: bool, slot: nat) returns (step: Inspection, covered: nat, done: bool, dead: bool)
      requires Valid() && slot < 2 && i < remaining && left <= ticks
      requires caching ==> first.guarded == SlotControls(slot)
      requires Searching(Current(), pending, consumed, first, q, i, ticks - left, reusable, caching)
      modifies `pending, `fullFlagsDead
      ensures Valid()
      ensures done ==> (dead <==> Scan(Current(), first, remaining, ticks))
      ensures !done ==>
                step.Advance? && step.cost <= left &&
                Searching(Current(), pending, consumed, first, step.next, i + 1, ticks - left + step.cost,
                          covered, caching)
    {
      hide EffectsOf, Crossed, Leads, Scan, ProofHolds;
      step := Inspected(first, q, i, ticks - left, reusable, caching);
      covered := if consumed + i < |pending| && caching && q.live == ALL_FLAGS && q.guarded == first.guarded
                 then i + 1 else reusable;
      done, dead := step.Terminal? || step.cost > left || step.next.live == {}, false;
      if done {
        dead := Conclude(first, q, i, ticks, left, remaining, step, reusable, covered, caching, slot);
      } else {
        SearchingNext(Current(), pending, consumed, first, q, i, ticks - left, reusable, caching, step);
      }
    }

    /** The search used all its instructions: no answer yet, which holds for shorter limits too. */
    method Exhausted(first: Query, ghost q: Query, remaining: nat, ticks: nat, left: nat, reusable: nat,
                     caching: bool, slot: nat)
      requires Valid() && slot < 2 && left <= ticks
      requires caching ==> first.guarded == SlotControls(slot)
      requires Searching(Current(), pending, consumed, first, q, remaining, ticks - left, reusable, caching)
      modifies `fullFlagsDead
      ensures Valid() && !Scan(Current(), first, remaining, ticks)
    {
      hide EffectsOf, Consistent, Crossed, Leads, Decode, Inspect;
      SearchingCovers(Current(), pending, consumed, first, q, remaining, ticks - left, reusable, caching);
      var proof := FlagProof(reusable, remaining, ticks - left, BoundedFailure);
      SaysCountBound(Current(), first, q, remaining, ticks - left, proof);
      assert AtLimits(remaining, ticks);
      CoversProof(Current(), pending[consumed..consumed + remaining], first, ticks - left, proof);
      Remember(slot, remaining, proof);
    }

    /** The search itself; it remembers why it ended where the answer is reusable. */
    method SearchFlags(first: Query, remaining: nat, ticks: nat, caching: bool, slot: nat) returns (dead: bool)
      requires Valid() && Follows(first.pc, first.it) && first.live != {} && slot < 2
      requires consumed < |pending| ==> pending[consumed].pc == first.pc && pending[consumed].it == first.it
      requires caching ==> first.live == ALL_FLAGS && first.guarded == SlotControls(slot)
      modifies this
      ensures Valid() && Current() == old(Current())
      ensures dead <==> Scan(Current(), first, remaining, ticks)
    {
      assert consumed <= |pending|;
      hide Consistent, Searching, Scan, SlotControls, Sequential, EffectsOf, ProofHolds, Faithful, Decode, SizesAgree, Chained, Inspect;
      SearchingStarts(Current(), pending, consumed, first, caching);
      ghost var v := Current();
      var q, i: nat, left: nat, reusable: nat := first, 0, ticks, 0;
      while i < remaining
        invariant Valid() && Current() == v && i <= remaining && left <= ticks
        invariant Searching(v, pending, consumed, first, q, i, ticks - left, reusable, caching)
      {
        var step, covered, done, answer := Probe(first, q, i, ticks, left, remaining, reusable, caching, slot);
        if done {
          return answer;
        }
        left := left - step.cost;
        q, i, reusable := step.next, i + 1, covered;
      }
      Exhausted(first, q, remaining, ticks, left, reusable, caching, slot);
      dead := false;
    }
  }

  /** The loop invariant of SearchFlags over the window's fields. */
  ghost predicate Searching(v: View, pending: seq<Decoded>, consumed: nat, first: Query, q: Query, i: nat, spent: nat,
                            reusable: nat, caching: bool)
  {
    && consumed + i <= |pending|
    && Leads(v, first, q, i, spent)
    && Crossed(v, pending[consumed..consumed + i], first, q, spent, reusable, caching)
    && (consumed + i < |pending| ==> pending[consumed + i].pc == q.pc && pending[consumed + i].it == q.it)
    && (0 < consumed + i == |pending| ==> Sequential(v, pending[consumed + i - 1], q.pc, q.it))
  }

  lemma SearchingStarts(v: View, pending: seq<Decoded>, consumed: nat, first: Query, caching: bool)
    requires consumed <= |pending| && first.live != {}
    requires consumed < |pending| ==> pending[consumed].pc == first.pc && pending[consumed].it == first.it
    requires 0 < consumed == |pending| ==> Sequential(v, pending[consumed - 1], first.pc, first.it)
    ensures Searching(v, pending, consumed, first, first, 0, 0, 0, caching)
  {
  }

  lemma SearchingStable(v: View, before: seq<Decoded>, after: seq<Decoded>, consumed: nat, first: Query, q: Query, i: nat,
                        spent: nat, reusable: nat, caching: bool)
    requires Searching(v, before, consumed, first, q, i, spent, reusable, caching)
    requires |before| <= |after| && after[consumed..consumed + i] == before[consumed..consumed + i]
    requires consumed + i < |after| ==> after[consumed + i].pc == q.pc && after[consumed + i].it == q.it
    requires |before| > 0 ==> Untimed(before[|before| - 1]) == Untimed(after[|before| - 1])
    ensures Searching(v, after, consumed, first, q, i, spent, reusable, caching)
  {
  }

  lemma SearchingCovers(v: View, pending: seq<Decoded>, consumed: nat, first: Query, q: Query, i: nat, spent: nat,
                        reusable: nat, caching: bool)
    requires Searching(v, pending, consumed, first, q, i, spent, reusable, caching)
    ensures CoversAll(v, pending[consumed..consumed + i], first, spent, reusable)
    ensures consumed + i < |pending| ==>
              var covered := Covered(pending[consumed..consumed + i], first, q, reusable, caching);
              CoversAll(v, pending[consumed..consumed + i + 1], first, spent, covered) && (covered != 0 ==> caching)
    ensures reusable != 0 ==> caching
  {
    var s := pending[consumed..consumed + i];
    CrossedCovers(v, s, first, q, spent, reusable, caching);
    if consumed + i < |pending| {
      assert pending[consumed..consumed + i + 1] == s + [pending[consumed + i]];
      CrossedCoversNext(v, s, pending[consumed + i], first, q, spent, reusable, caching);
    }
  }

  lemma SearchingNext(v: View, pending: seq<Decoded>, consumed: nat, first: Query, q: Query, i: nat, spent: nat,
                      reusable: nat, caching: bool, step: Inspection)
    requires Searching(v, pending, consumed, first, q, i, spent, reusable, caching)
    requires consumed + i < |pending| && step == Inspect(v, q) && step.Advance? && step.next.live != {}
    requires SizesAgree(v.source) && Faithful(v, pending[consumed + i]) && Chained(v, pending)
    requires pending[consumed + i].ticks == Some(step.cost)
    ensures Searching(v, pending, consumed, first, step.next, i + 1, spent + step.cost,
                      Covered(pending[consumed..consumed + i], first, q, reusable, caching), caching)
  {
    var s, e := pending[consumed..consumed + i], pending[consumed + i];
    assert pending[consumed..consumed + i + 1] == s + [e];
    SequentialStep(v, e, q, step);
    LeadsMore(v, first, q, i, spent);
    CrossedNext(v, s, e, first, q, step.next, spent, reusable, caching);
    if consumed + i + 1 < |pending| {
      assert Linked(v, pending, consumed + i + 1);
    }
  }

  /** Why a search that stops at the i-th instruction stopped there. */
  function Verdict(step: Inspection, reusable: nat, i: nat, ticks: nat, left: nat): FlagProof
    requires left <= ticks
  {
    if step.Terminal? then FlagProof(reusable, 0, 0, TerminalFailure)
    else if step.cost > left then FlagProof(reusable, i, ticks, BoundedFailure)
    else FlagProof(reusable, i + 1, ticks - left + step.cost, Overwrite)
  }

  lemma VerdictSays(v: View, first: Query, q: Query, i: nat, ticks: nat, left: nat, step: Inspection, p: FlagProof)
    requires left <= ticks && Leads(v, first, q, i, ticks - left) && step == Inspect(v, q)
    requires step.Advance? && step.cost <= left ==> step.next.live == {}
    requires p == Verdict(step, p.reusablePrefix, i, ticks, left)
    ensures Says(v, first, p)
  {
  }

  lemma SaysHere(v: View, first: Query, p: FlagProof, n: nat, t: nat)
    requires Says(v, first, p)
    ensures Meets(p, n, t, Scan(v, first, n, t))
  {
    assert AtLimits(n, t);
  }

  /** A crossed instruction hands the search to its sequential successor. */
  lemma SequentialStep(v: View, e: Decoded, q: Query, step: Inspection)
    requires Faithful(v, e) && SizesAgree(v.source) && e.pc == q.pc && e.it == q.it
    requires step == Inspect(v, q) && step.Advance?
    ensures Sequential(v, e, step.next.pc, step.next.it)
    ensures !CrossEffects(e.instruction, COMPARISON_CONTROLS).boundary
    ensures step.next.live <= q.live
    ensures step.next.guarded == q.guarded || step.next.guarded == {}
  {
    CachedInspection(v, e, q);
  }

  /** The state of a search that has crossed the instructions s undecided. */
  ghost predicate Crossed(v: View, s: seq<Decoded>, first: Query, q: Query, spent: nat, reusable: nat, caching: bool) {
    && q.live != {} && q.live <= first.live
    && (q.guarded == first.guarded || q.guarded == {})
    && (forall j :: 0 <= j < |s| ==> s[j].ticks.Some?)
    && PaidPrefix(s, |s|) == spent
    && reusable <= |s|
    && (reusable != 0 ==> caching && first == FullQuery(s[0], first.guarded))
    && (forall j :: 0 <= j < reusable - 1 ==> TransparentAt(v, s, j, first.guarded))
    && (caching && q.live == ALL_FLAGS && q.guarded == first.guarded ==>
          reusable == |s| &&
          if s == [] then q == first
          else s[|s| - 1].word.Some? &&
               Inspect(v, FullQuery(s[|s| - 1], first.guarded)) == Advance(Cost(v, s[|s| - 1]), q))
  }

  function Covered(s: seq<Decoded>, first: Query, q: Query, reusable: nat, caching: bool): nat {
    if caching && q.live == ALL_FLAGS && q.guarded == first.guarded then |s| + 1 else reusable
  }

  lemma {:induction false} PaidMonotone(s: seq<Decoded>, j: nat, k: nat)
    requires j <= k <= |s|
    ensures PaidPrefix(s, j) <= PaidPrefix(s, k)
  {
    if j < k {
      PaidMonotone(s, j, k - 1);
    }
  }

  /** Any proof of this search may be reused over the covered entries of s. */
  ghost predicate CoversAll(v: View, s: seq<Decoded>, first: Query, spent: nat, covered: nat) {
    covered != 0 ==>
      && 1 <= covered <= |s|
      && first == FullQuery(s[0], first.guarded)
      && (forall i :: 0 <= i < covered - 1 ==> TransparentAt(v, s, i, first.guarded))
      && (forall i :: 0 <= i < covered - 1 ==> s[i].ticks.Some?)
      && PaidPrefix(s, covered - 1) <= spent
  }

  lemma CoversProof(v: View, s: seq<Decoded>, first: Query, spent: nat, p: FlagProof)
    requires CoversAll(v, s, first, spent, p.reusablePrefix)
    requires p.kind.TerminalFailure? || spent <= p.ticks
    ensures p.reusablePrefix != 0 ==> Reusable(v, s, p, first.guarded) && first == FullQuery(s[0], first.guarded)
  {
  }

  lemma CrossedCovers(v: View, s: seq<Decoded>, first: Query, q: Query, spent: nat, reusable: nat, caching: bool)
    requires Crossed(v, s, first, q, spent, reusable, caching)
    ensures CoversAll(v, s, first, spent, reusable)
  {
    if reusable != 0 {
      PaidMonotone(s, reusable - 1, |s|);
    }
  }

  lemma CrossedCoversNext(v: View, s: seq<Decoded>, e: Decoded, first: Query, q: Query, spent: nat, reusable: nat,
                          caching: bool)
    requires Crossed(v, s, first, q, spent, reusable, caching) && e.pc == q.pc && e.it == q.it
    ensures CoversAll(v, s + [e], first, spent, Covered(s, first, q, reusable, caching))
  {
    var k := Covered(s, first, q, reusable, caching);
    TransparentGrows(v, s, e, first, reusable);
    if k != 0 {
      PaidAgrees(s, s + [e], k - 1);
      PaidMonotone(s, k - 1, |s|);
    }
  }

  lemma TransparentGrows(v: View, s: seq<Decoded>, e: Decoded, first: Query, k: nat)
    requires forall j :: 0 <= j < k - 1 ==> TransparentAt(v, s, j, first.guarded)
    ensures forall j :: 0 <= j < k - 1 ==> TransparentAt(v, s + [e], j, first.guarded)
  {
    forall j | 0 <= j < k - 1
      ensures TransparentAt(v, s + [e], j, first.guarded)
    {
      assert TransparentAt(v, s, j, first.guarded);
    }
  }

  lemma CrossedNext(v: View, s: seq<Decoded>, e: Decoded, first: Query, q: Query, next: Query, spent: nat,
                     reusable: nat, caching: bool)
    requires Crossed(v, s, first, q, spent, reusable, caching) && e.pc == q.pc && e.it == q.it
    requires e.word.Some? && e.ticks == Some(Cost(v, e))
    requires Inspect(v, q) == Advance(Cost(v, e), next) && next.live != {} && next.live <= q.live
    requires next.guarded == q.guarded || next.guarded == {}
    ensures Crossed(v, s + [e], first, next, spent + Cost(v, e), Covered(s, first, q, reusable, caching), caching)
  {
    hide EffectsOf, Inspect;
    PaidAgrees(s, s + [e], |s|);
    TransparentGrows(v, s, e, first, reusable);
    if caching && next.live == ALL_FLAGS && next.guarded == first.guarded {
      AllFlags(q.live);
      assert q.live == ALL_FLAGS;
    }
  }

  lemma SaysCountBound(v: View, first: Query, q: Query, i: nat, spent: nat, p: FlagProof)
    requires Leads(v, first, q, i, spent)
    requires p.kind.BoundedFailure? && p.instructions == i && p.ticks == spent
    ensures Says(v, first, p)
  {
  }

  lemma ReusableExtends(v: View, w: seq<Decoded>, k: nat, p: FlagProof, controls: Controls)
    requires k <= |w| && Reusable(v, w[..k], p, controls)
    ensures Reusable(v, w, p, controls)
  {
    PaidAgrees(w[..k], w, p.reusablePrefix - 1);
    forall i | 0 <= i < p.reusablePrefix - 1
      ensures TransparentAt(v, w, i, controls)
    {
      assert TransparentAt(v, w[..k], i, controls);
    }
  }

  lemma ChainedUpdate(v: View, w: seq<Decoded>, k: nat, e: Decoded)
    requires Chained(v, w) && k < |w| && Untimed(e) == Untimed(w[k])
    requires Faithful(v, e) && forall f <- w :: Faithful(v, f)
    ensures Chained(v, w[k := e])
    ensures forall f <- w[k := e] :: Faithful(v, f)
  {
    var u := w[k := e];
    forall j
      ensures Linked(v, u, j)
    {
      assert Linked(v, w, j);
      if 0 < j < |u| {
        assert Untimed(u[j - 1]) == Untimed(w[j - 1]) && Untimed(u[j]) == Untimed(w[j]);
      }
    }
  }

  lemma ChainedPart(v: View, w: seq<Decoded>, i: nat, k: nat)
    requires Chained(v, w) && i <= k <= |w|
    ensures Chained(v, w[i..k])
  {
    forall j
      ensures Linked(v, w[i..k], j)
    {
      assert Linked(v, w, i + j);
    }
  }

  lemma ChainedGrows(v: View, w: seq<Decoded>, e: Decoded)
    requires Chained(v, w)
    requires |w| > 0 ==> Sequential(v, w[|w| - 1], e.pc, e.it)
    ensures Chained(v, w + [e])
  {
    forall j
      ensures Linked(v, w + [e], j)
    {
      assert Linked(v, w, j);
    }
  }
}
