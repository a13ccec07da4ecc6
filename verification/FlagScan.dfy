/** The forward search for an overwrite of dead NZCV bits, as a function of the
    instruction source alone: no window, no memory of earlier searches. */
module FlagScan {
  import opened Wrappers
  import opened Isa

  datatype Decoded = Decoded(pc: nat, it: nat, word: Option<int>, instruction: Instruction, ticks: Option<nat>)

  /** Instruction words, decoder and timing, fixed during one compilation. */
  datatype Source = Source(
    isWide: nat -> bool,
    fetch: (bool, nat) -> Option<int>,
    decode: (bool, int, nat) -> Instruction,
    ticks: (bool, nat, int) -> nat)

  /** What lookahead may inspect: a source, its pinned regions and the mode. */
  datatype View = View(source: Source, regionEnd: nat -> Option<nat>, thumb: bool)

  const UNDECODED := Instruction(Unsupported, 14, 4, 0, 0, 0, 0, 0, Lsl, 0, 0, false, false, false,
                                 false, false, {}, 0, false, false, true, true, false)

  function Decode(v: View, pc: nat, it: nat, allowStraddle: bool): Option<Decoded> {
    match v.regionEnd(pc)
    case None => None
    case Some(end) =>
      if v.thumb && v.source.isWide(pc) && !allowStraddle && pc + 4 > end then None
      else
        var word := v.source.fetch(v.thumb, pc);
        Some(Decoded(pc, it, word,
                     match word case None => UNDECODED case Some(w) => v.source.decode(v.thumb, w, it),
                     None))
  }

  /** The decoder reports every wide Thumb encoding as four bytes long. */
  ghost predicate SizesAgree(s: Source) {
    forall pc: nat, w: int, it: nat ::
      s.isWide(pc) && s.fetch(true, pc) == Some(w) ==> s.decode(true, w, it).size == 4
  }

  function Cost(v: View, e: Decoded): nat
    requires e.word.Some?
  {
    v.source.ticks(v.thumb, e.pc, e.word.value)
  }

  function AdvanceIt(it: nat): nat {
    if it % 8 == 0 then 0 else it / 32 * 32 + it * 2 % 32
  }

  function NextIt(v: View, inst: Instruction, it: nat): nat {
    if !v.thumb then 0 else if inst.kind.IfThen? then inst.immediate else AdvanceIt(it)
  }

  /** FPSCR trap-control bits a comparison was checked clear of. */
  type Controls = set<nat>
  const COMPARISON_CONTROLS: Controls := {8, 15}

  function CrossEffects(inst: Instruction, guarded: Controls): FlagEffects {
    var effects := EffectsOf(inst);
    if inst.kind.FloatingComparison? && inst.condition != 15 && COMPARISON_CONTROLS <= guarded
    then effects.(boundary := false) else effects
  }

  function ControlsAfter(inst: Instruction, guarded: Controls): Controls {
    if inst.kind.FloatingSystem? && !inst.kind.systemToCore then {} else guarded
  }

  datatype Query = Query(live: set<Flag>, pc: nat, it: nat, guarded: Controls)

  datatype Inspection = Terminal | Advance(cost: nat, next: Query)

  /** One inspected instruction: a terminal failure, or its cost and successor. */
  function Inspect(v: View, q: Query): Inspection {
    match Decode(v, q.pc, q.it, false)
    case None => Terminal
    case Some(e) =>
      var inst := e.instruction;
      var effects := CrossEffects(inst, q.guarded);
      if e.word.None? || q.pc + inst.size > v.regionEnd(q.pc).value || effects.boundary ||
         effects.read * q.live != {} || Cost(v, e) == 0
      then Terminal
      else Advance(Cost(v, e),
                   Query(q.live - effects.guaranteedWrite, q.pc + inst.size,
                         NextIt(v, inst, q.it), ControlsAfter(inst, q.guarded)))
  }

  /** Are all live bits overwritten within n instructions and the tick limit,
      before any read or boundary? */
  predicate Scan(v: View, q: Query, n: nat, ticks: nat)
    decreases n
  {
    n != 0 &&
    match Inspect(v, q)
    case Terminal => false
    case Advance(cost, next) =>
      cost <= ticks && (next.live == {} || Scan(v, next, n - 1, ticks - cost))
  }

  /** Names a pair of limits, so that facts about all limits are used only where asked for. */
  predicate AtLimits(n: nat, t: nat) {
    true
  }

  /** A search from q that spends i instructions and s ticks reaches r undecided. */
  ghost predicate Leads(v: View, q: Query, r: Query, i: nat, s: nat) {
    forall n: nat, t: nat {:trigger AtLimits(n, t)} :: AtLimits(n, t) ==>
      (Scan(v, q, n, t) <==> (n >= i && t >= s && Scan(v, r, n - i, t - s)))
  }

  lemma LeadsOne(v: View, q: Query)
    requires Inspect(v, q).Advance? && Inspect(v, q).next.live != {}
    ensures Leads(v, q, Inspect(v, q).next, 1, Inspect(v, q).cost)
  {
  }

  lemma LeadsMore(v: View, q: Query, r: Query, i: nat, s: nat)
    requires Leads(v, q, r, i, s)
    requires Inspect(v, r).Advance? && Inspect(v, r).next.live != {}
    ensures Leads(v, q, Inspect(v, r).next, i + 1, s + Inspect(v, r).cost)
  {
    hide Decode, EffectsOf;
    LeadsOne(v, r);
    var next, cost := Inspect(v, r).next, Inspect(v, r).cost;
    forall n: nat, t: nat {:trigger AtLimits(n, t)} | AtLimits(n, t)
      ensures Scan(v, q, n, t) <==>
              (n >= i + 1 && t >= s + cost && Scan(v, next, n - (i + 1), t - (s + cost)))
    {
      if n >= i && t >= s {
        assert AtLimits(n - i, t - s);
      }
    }
  }

  /** Larger limits never lose an overwrite. */
  lemma {:induction false} ScanMonotone(v: View, q: Query, n: nat, t: nat, n': nat, t': nat)
    requires Scan(v, q, n, t) && n <= n' && t <= t'
    ensures Scan(v, q, n', t')
    decreases n
  {
    var step := Inspect(v, q);
    if step.next.live != {} {
      ScanMonotone(v, step.next, n - 1, t - step.cost, n' - 1, t' - step.cost);
    }
  }
}
