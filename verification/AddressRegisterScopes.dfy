/** Lifetimes of bases that are formed inside a recorded path. */
module AddressRegisterScopes {
  import opened Words
  import opened AddressRegisterPlan

  /** Registers that may be pointers at a step, and those whose lifetime ends there. */
  datatype Position = Position(allowed: set<Reg>, ending: set<Reg>)

  const NOWHERE := Position({}, {})

  datatype Scopes = Scopes(bases: seq<Reg>, positions: seq<Position>)

  predicate Overlaps(s: Scopes, reg: Reg, begin: nat, end: nat)
    requires begin <= end < |s.positions|
  {
    exists n :: begin <= n < end && reg in s.positions[n].allowed
  }

  /** A lifetime that overlaps none of its register and still finds a slot. */
  function Added(s: Scopes, reg: Reg, begin: nat, end: nat): (t: Scopes)
    requires begin <= end < |s.positions|
    ensures |t.positions| == |s.positions|
  {
    if Overlaps(s, reg, begin, end) || (reg !in s.bases && |s.bases| >= CAPACITY) then s
    else
      Scopes(if reg in s.bases then s.bases else s.bases + [reg],
             seq(|s.positions|, n requires 0 <= n < |s.positions| => Marked(s.positions[n], reg, begin <= n < end, n == end)))
  }

  function Marked(p: Position, reg: Reg, inside: bool, last: bool): Position {
    Position(if inside then p.allowed + {reg} else p.allowed, if last then p.ending + {reg} else p.ending)
  }

  class AddressRegisterScopes {
    var bases: seq<Reg>
    var positions: seq<Position>

    constructor ()
      ensures Now() == Scopes([], [])
    {
      bases, positions := [], [];
    }

    function Now(): Scopes
      reads this
    {
      Scopes(bases, positions)
    }

    method Resize(steps: nat)
      requires positions == []
      modifies `positions
      ensures Now() == Scopes(bases, seq(steps + 1, _ => NOWHERE))
    {
      positions := seq(steps + 1, _ => NOWHERE);
    }

    method Add(reg: Reg, begin: nat, end: nat)
      requires begin <= end < |positions|
      modifies this
      ensures Now() == Added(old(Now()), reg, begin, end)
    {
      var n := begin;
      while n < end
        invariant begin <= n <= end && Now() == old(Now())
        invariant forall k :: begin <= k < n ==> reg !in positions[k].allowed
      {
        if reg in positions[n].allowed {
          return;
        }
        n := n + 1;
      }
      if reg !in bases {
        if |bases| >= CAPACITY {
          return;
        }
        bases := bases + [reg];
      }
      n := begin;
      while n < end
        invariant begin <= n <= end && |positions| == |old(positions)|
        invariant bases == if reg in old(bases) then old(bases) else old(bases) + [reg]
        invariant forall k :: 0 <= k < |positions| ==>
                    positions[k] == Marked(old(positions)[k], reg, begin <= k < n, false)
      {
        positions := positions[n := positions[n].(allowed := positions[n].allowed + {reg})];
        n := n + 1;
      }
      positions := positions[end := positions[end].(ending := positions[end].ending + {reg})];
      assert positions == Added(old(Now()), reg, begin, end).positions;
    }
  }
}
