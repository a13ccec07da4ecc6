/** The generated continuation dispatcher: chaining fragments under a tick grant
and a hop count, and the executor loop that opens each invocation. */
module Dispatcher {
  import opened Wrappers
  import opened Words

  const MAXIMUM_TICKS: nat := 32768
  const MAXIMUM_HOPS: nat := 32768
  const MAXIMUM_GROUPS: nat := 1024

  datatype Fragment = Fragment(maximum: nat, closed: bool, endsWithStop: bool)

  /** NativeOutcome as the dispatcher sees it. */
  datatype Outcome = Outcome(paid: nat, remaining: nat, hops: nat, reason: nat, groups: nat, stopped: bool)

  /** What happens around one entry of the dispatcher: the fragment that just left
      paid some ticks for a reason; the processor mode admits chaining or not; the
      table or the resolver yields a successor or not; the run control is polled. */
  datatype Event = Event(ticks: nat, reason: nat, admitted: bool, found: Option<Fragment>, poll: nat)

  datatype Next = Leave(outcome: Outcome) | Start(outcome: Outcome, fragment: Fragment)

  /** Unsigned host division: a zero divisor gives zero. */
  function Divide(a: nat, b: nat): nat {
    if b == 0 then 0 else a / b
  }

  /** A successor may start below the remaining budget, or at exactly the budget
      when it ends with a stop that is paid before any further fetch. */
  predicate Affordable(f: Fragment, remaining: nat) {
    f.maximum < remaining || (f.maximum == remaining && f.endsWithStop)
  }

  function Groups(f: Fragment, remaining: nat): nat {
    if f.closed then Min(Divide(remaining, f.maximum), MAXIMUM_GROUPS) else 1
  }

  function Dispatch(o: Outcome, e: Event): Next {
    var paid := o.(paid := o.paid + e.ticks, reason := e.reason);
    if e.reason != 0 || o.remaining <= e.ticks then Leave(paid)
    else
      var left := paid.(remaining := o.remaining - e.ticks);
      if o.hops == 0 then Leave(left)
      else
        var hopped := left.(hops := o.hops - 1);
        if !e.admitted || e.found.None? || !Affordable(e.found.value, hopped.remaining) then Leave(hopped)
        else
          var grouped := hopped.(groups := Groups(e.found.value, hopped.remaining));
          if e.poll != 0 then Leave(grouped.(reason := e.poll, stopped := true))
          else Start(grouped, e.found.value)
  }

  /** A fragment entered with a group count pays at most that many maxima, counting
      the cost of a checked transfer that completes after it leaves. */
  predicate Pays(f: Fragment, groups: nat, ticks: nat) {
    ticks <= groups * f.maximum
  }

  /** Invariant of a running chain. */
  predicate Running(o: Outcome, f: Fragment, grant: nat) {
    && o.paid + o.remaining == grant && o.remaining > 0 && o.reason == 0
    && f.maximum > 0 && o.groups >= 1 && o.groups * f.maximum <= o.remaining
    && (o.groups * f.maximum == o.remaining ==> f.closed || f.endsWithStop)
    && (f.closed || o.groups == 1) && o.groups <= MAXIMUM_GROUPS
  }

  lemma WholeGroups(remaining: nat, maximum: nat)
    requires 0 < maximum <= remaining
    ensures remaining / maximum >= 1 && remaining / maximum * maximum <= remaining
  {
    var q := remaining / maximum;
    assert remaining == q * maximum + remaining % maximum;
    if q < 1 {
      Scale(0, q, maximum);
    }
  }

  lemma GroupsFit(f: Fragment, remaining: nat)
    requires f.maximum > 0 && Affordable(f, remaining)
    ensures var g := Groups(f, remaining);
            1 <= g <= MAXIMUM_GROUPS && g * f.maximum <= remaining &&
            (g * f.maximum == remaining ==> f.closed || f.endsWithStop)
  {
    if f.closed {
      var q := remaining / f.maximum;
      WholeGroups(remaining, f.maximum);
      Scale(q, Groups(f, remaining), f.maximum);
    }
  }

  /** One hop: either the chain leaves having paid no more than the grant, or the
      next fragment starts with ticks conserved and hops spent. */
  lemma HopConserves(o: Outcome, f: Fragment, grant: nat, e: Event)
    requires Running(o, f, grant) && Pays(f, o.groups, e.ticks)
    requires e.found.Some? ==> e.found.value.maximum > 0
    ensures var n := Dispatch(o, e);
            && n.outcome.paid == o.paid + e.ticks && n.outcome.paid <= grant
            && (n.Start? ==> Running(n.outcome, n.fragment, grant) && n.outcome.hops == o.hops - 1 &&
                             (n.fragment.maximum < n.outcome.remaining || n.fragment.endsWithStop))
            && (n.Leave? && n.outcome.hops != o.hops ==> n.outcome.paid + n.outcome.remaining == grant)
  {
    if e.found.Some? && o.remaining > e.ticks && Affordable(e.found.value, o.remaining - e.ticks) {
      GroupsFit(e.found.value, o.remaining - e.ticks);
    }
  }

  /** The whole chain after the fragment f, with the world's events in order. */
  function Chain(o: Outcome, f: Fragment, events: seq<Event>): Outcome
    decreases |events|
  {
    if events == [] then o
    else
      match Dispatch(o, events[0])
      case Leave(out) => out
      case Start(out, next) => Chain(out, next, events[1..])
  }

  /** Every fragment of the chain keeps its promise about the ticks it pays, and
      every descriptor has a positive maximum. */
  ghost predicate Honest(o: Outcome, f: Fragment, events: seq<Event>)
    decreases |events|
  {
    events != [] ==>
      var e := events[0];
      && Pays(f, o.groups, e.ticks) && (e.found.Some? ==> e.found.value.maximum > 0)
      && match Dispatch(o, e)
         case Leave(_) => true
         case Start(out, next) => Honest(out, next, events[1..])
  }

  /** Safety over whole chains: the paid total never exceeds the grant. */
  lemma {:induction false} ChainWithinGrant(o: Outcome, f: Fragment, grant: nat, events: seq<Event>)
    requires Running(o, f, grant) && Honest(o, f, events)
    ensures Chain(o, f, events).paid <= grant
    decreases |events|
  {
    if events != [] {
      HopConserves(o, f, grant, events[0]);
      match Dispatch(o, events[0]) {
        case Leave(_) =>
        case Start(out, next) => ChainWithinGrant(out, next, grant, events[1..]);
      }
    }
  }

  /** How many events a chain consumes before it leaves. */
  function Consumed(o: Outcome, f: Fragment, events: seq<Event>): nat
    decreases |events|
  {
    if events == [] then 0
    else
      match Dispatch(o, events[0])
      case Leave(_) => 1
      case Start(out, next) => 1 + Consumed(out, next, events[1..])
  }

  /** The hop count bounds every chain, even of fragments that pay nothing. */
  lemma {:induction false} ChainTerminates(o: Outcome, f: Fragment, events: seq<Event>)
    ensures Consumed(o, f, events) <= o.hops + 1
    decreases |events|
  {
    if events != [] {
      match Dispatch(o, events[0]) {
        case Leave(_) =>
        case Start(out, next) =>
          assert o.hops != 0;
          ChainTerminates(out, next, events[1..]);
      }
    }
  }

  /** An invocation as the executor prepares it. */
  function GroupsAtEntry(f: Fragment, remaining: nat): nat {
    if f.closed && f.maximum != 0
    then if Min(MAXIMUM_GROUPS, remaining / f.maximum) < 1 then 1 else Min(MAXIMUM_GROUPS, remaining / f.maximum)
    else 1
  }

  /** The ordinary entry is kept when it fits the budget; otherwise the executor
      takes the one-instruction entry. */
  predicate KeepsEntry(f: Fragment, remaining: nat) {
    !(f.maximum >= remaining && (!f.endsWithStop || f.maximum != remaining))
  }

  /** Chaining is prepared only with budget to spare after the root. */
  function Prepared(remaining: nat, f: Fragment): Option<Outcome> {
    if f.maximum == 0 || remaining <= f.maximum then None
    else Some(Outcome(0, Min(remaining, MAXIMUM_TICKS), MAXIMUM_HOPS, 0, GroupsAtEntry(f, remaining), false))
  }

  /** The root ran on the whole budget, not on the grant: it may pay more than the
      grant, but then the dispatcher leaves at once. */
  lemma RootThenChain(f: Fragment, remaining: nat, events: seq<Event>)
    requires Prepared(remaining, f).Some? && Honest(Prepared(remaining, f).value, f, events)
    ensures Chain(Prepared(remaining, f).value, f, events).paid <= remaining
  {
    var o := Prepared(remaining, f).value;
    EntryGroupsFit(f, remaining);
    if events != [] && Dispatch(o, events[0]).Start? {
      var e := events[0];
      var next := Dispatch(o, e);
      GroupsFit(next.fragment, next.outcome.remaining);
      ChainWithinGrant(next.outcome, next.fragment, o.remaining, events[1..]);
    }
  }

  lemma EntryGroupsFit(f: Fragment, remaining: nat)
    requires f.maximum <= remaining
    ensures GroupsAtEntry(f, remaining) >= 1 && GroupsAtEntry(f, remaining) * f.maximum <= remaining
  {
    if f.closed && f.maximum != 0 {
      var q := remaining / f.maximum;
      WholeGroups(remaining, f.maximum);
      Scale(q, GroupsAtEntry(f, remaining), f.maximum);
    }
  }

  /** One invocation of the run loop: the entry found, the one-instruction entry
      that may replace it, and what happened natively. */
  datatype Invocation = Invocation(entry: Fragment, single: Fragment, chained: bool, events: seq<Event>)

  function Selected(i: Invocation, remaining: nat): Fragment {
    if KeepsEntry(i.entry, remaining) then i.entry else i.single
  }

  /** Ticks one invocation adds: a chain, or one fragment left alone. */
  function Adds(i: Invocation, remaining: nat): nat {
    var f := Selected(i, remaining);
    if i.events == [] then 0
    else if i.chained && Prepared(remaining, f).Some? then Chain(Prepared(remaining, f).value, f, i.events).paid
    else i.events[0].ticks
  }

  ghost predicate Faithful(i: Invocation, remaining: nat) {
    var f := Selected(i, remaining);
    && (i.events != [] ==> Pays(f, GroupsAtEntry(f, remaining), i.events[0].ticks))
    && (Prepared(remaining, f).Some? ==> Honest(Prepared(remaining, f).value, f, i.events))
    && !i.single.closed
  }

  /** Total after a sequence of invocations that starts with consumed ticks; the
      loop stops as soon as the budget is reached. */
  function Run(budget: nat, consumed: nat, run: seq<Invocation>): nat
    decreases |run|
  {
    if run == [] || consumed >= budget then consumed
    else Run(budget, consumed + Adds(run[0], budget - consumed), run[1..])
  }

  ghost predicate FaithfulRun(budget: nat, consumed: nat, run: seq<Invocation>)
    decreases |run|
  {
    run != [] && consumed < budget ==>
      Faithful(run[0], budget - consumed) &&
      FaithfulRun(budget, consumed + Adds(run[0], budget - consumed), run[1..])
  }

  /** The run never overshoots its budget, except by the one-instruction tail
      entry that the last invocation had to take. */
  lemma {:induction false} RunWithinBudget(budget: nat, consumed: nat, run: seq<Invocation>, tail: nat)
    requires consumed <= budget + tail && FaithfulRun(budget, consumed, run)
    requires forall i <- run :: i.single.maximum <= tail + 1
    ensures Run(budget, consumed, run) <= budget + tail
    decreases |run|
  {
    if run != [] && consumed < budget {
      var i, remaining := run[0], budget - consumed;
      InvocationWithin(i, remaining, tail);
      RunWithinBudget(budget, consumed + Adds(i, remaining), run[1..], tail);
    }
  }

  lemma InvocationWithin(i: Invocation, remaining: nat, tail: nat)
    requires remaining > 0 && Faithful(i, remaining) && i.single.maximum <= tail + 1
    ensures Adds(i, remaining) <= remaining + tail
    ensures KeepsEntry(i.entry, remaining) ==> Adds(i, remaining) <= remaining
  {
    var f := Selected(i, remaining);
    if i.events != [] {
      if i.chained && Prepared(remaining, f).Some? {
        RootThenChain(f, remaining, i.events);
      } else if f.maximum <= remaining {
        EntryGroupsFit(f, remaining);
      }
    }
  }

  /** The budget is kept whatever the fragments do exactly when the ordinary entry
      fits what is left, or the one-instruction entry that replaces it does. */
  lemma WithinExactly(entry: Fragment, single: Fragment, chained: bool, remaining: nat)
    requires remaining > 0 && !single.closed
    ensures (forall events: seq<Event> ::
               Faithful(Invocation(entry, single, chained, events), remaining) ==>
                 Adds(Invocation(entry, single, chained, events), remaining) <= remaining) <==>
            KeepsEntry(entry, remaining) || single.maximum <= remaining
  {
    if KeepsEntry(entry, remaining) || single.maximum <= remaining {
      forall events: seq<Event> | Faithful(Invocation(entry, single, chained, events), remaining)
        ensures Adds(Invocation(entry, single, chained, events), remaining) <= remaining
      {
        var i := Invocation(entry, single, chained, events);
        if KeepsEntry(entry, remaining) {
          InvocationWithin(i, remaining, single.maximum);
        } else {
          SingleWithin(i, remaining);
        }
      }
    } else {
      var events := [Event(single.maximum, 0, false, None, 0)];
      assert Faithful(Invocation(entry, single, chained, events), remaining);
      assert Adds(Invocation(entry, single, chained, events), remaining) == single.maximum;
    }
  }

  lemma SingleWithin(i: Invocation, remaining: nat)
    requires remaining > 0 && Faithful(i, remaining) && Selected(i, remaining) == i.single
    requires i.single.maximum <= remaining
    ensures Adds(i, remaining) <= remaining
  {
    var f := i.single;
    if i.events != [] && i.chained && Prepared(remaining, f).Some? {
      RootThenChain(f, remaining, i.events);
    }
  }

  /** A run may overshoot: one tick left, an instruction that costs two. */
  lemma TailOvershoots()
    ensures var two := Fragment(2, false, false);
            var run := [Invocation(two, two, false, [Event(2, 0, false, None, 0)])];
            FaithfulRun(1, 0, run) && Run(1, 0, run) == 2
  {
    var two := Fragment(2, false, false);
    var i := Invocation(two, two, false, [Event(2, 0, false, None, 0)]);
    assert Faithful(i, 1) && Adds(i, 1) == 2;
    assert FaithfulRun(1, 2, []) && Run(1, 2, []) == 2;
    assert [i][1..] == [];
  }

  /** The fields the generated thunk updates, one store at a time. */
  class NativeOutcome {
    var ticks: nat
    var continuationTicks: nat
    var remaining: nat
    var hops: nat
    var reason: nat
    var groups: nat
    var stopped: bool

    constructor (grant: nat, rootGroups: nat)
      ensures State() == Outcome(0, grant, MAXIMUM_HOPS, 0, rootGroups, false) && ticks == 0
    {
      ticks, continuationTicks, remaining, hops, reason, groups, stopped := 0, 0, grant, MAXIMUM_HOPS, 0, rootGroups, false;
    }

    function State(): Outcome
      reads this
    {
      Outcome(continuationTicks, remaining, hops, reason, groups, stopped)
    }

    /** The thunk, entered after a fragment stored its ticks and reason. The
        published tick count becomes the total of the whole invocation. */
    method Enter(admitted: bool, found: Option<Fragment>, poll: nat) returns (next: Option<Fragment>)
      modifies this
      ensures ticks == continuationTicks == old(continuationTicks + ticks)
      ensures var e := Event(old(ticks), old(reason), admitted, found, poll);
              var n := Dispatch(old(State()), e);
              State() == n.outcome && next == if n.Start? then Some(n.fragment) else None
    {
      var fragment := ticks;
      continuationTicks := continuationTicks + fragment;
      ticks := continuationTicks;
      if reason != 0 || remaining <= fragment {
        return None;
      }
      remaining := remaining - fragment;
      if hops == 0 {
        return None;
      }
      hops := hops - 1;
      if !admitted || found.None? {
        return None;
      }
      var f := found.value;
      if f.maximum >= remaining && (f.maximum != remaining || !f.endsWithStop) {
        return None;
      }
      groups := 1;
      if f.closed {
        groups := Divide(remaining, f.maximum);
        if groups >= MAXIMUM_GROUPS {
          groups := MAXIMUM_GROUPS;
        }
      }
      if poll != 0 {
        reason, stopped := poll, true;
        return None;
      }
      return Some(f);
    }
  }
}
