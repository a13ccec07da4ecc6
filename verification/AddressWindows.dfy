/** The compile-scoped window analysis: fields updated while one cycle is
    observed, assigned to windows, and expanded to the unrolled copies. */
module AddressWindows {
  import opened Words
  import opened Wrappers
  import opened Isa
  import opened AddressDisplacements
  import opened AddressKeys
  import opened AccessBounds
  import opened WindowGuards

  /** The window a new one starts as. */
  function Opened(a: Access, facts: Facts): Window
    requires Wellformed(facts) && Placeable(a, facts)
  {
    var key, advance := a.key, facts.values[a.key.base].value;
    Window(key.base, key.alignment, key.naturalAlignment, a.residue, key.load, a.first, a.end, 0, false, false, false,
           advance.constant, StrideFor(a, facts), a.firstCoefficient, a.lastCoefficient, advance.coefficient)
  }

  function Joined(w: Window, a: Access, facts: Facts): Window {
    w.(first := Min(w.first, a.first), end := Max(w.end, a.end),
       firstCoefficient := Min(w.firstCoefficient, a.firstCoefficient),
       lastCoefficient := Max(w.lastCoefficient, a.lastCoefficient),
       keys := w.keys + 1, indexed := w.indexed || a.key.index.Some?,
       adjusted := w.adjusted || a.adjusted || w.base in facts.modified)
  }

  /** A window whose saved validations are worth a guard, and whose guard exists. */
  predicate Eligible(w: Window) {
    !w.enabled && (w.keys > 1 || w.indexed || w.adjusted) && Fits(w.first, w.end)
  }

  ghost predicate Placed(windows: seq<Window>, placed: seq<Option<nat>>, accesses: seq<Access>, facts: Facts, i: nat)
    requires i < |placed| && i < |accesses| && Wellformed(facts)
  {
    && (placed[i].Some? <==> Placeable(accesses[i], facts))
    && (placed[i].Some? ==> placed[i].value < |windows| && Holds(windows[placed[i].value], accesses[i], facts))
  }

  /** Every window was opened by one of the first i accesses. */
  ghost predicate Inhabited(windows: seq<Window>, placed: seq<Option<nat>>, i: nat) {
    i <= |placed| && forall j: nat :: j < |windows| ==> exists k: nat :: k < i && placed[k] == Some(j)
  }

  lemma SameBoundsHolds(v: Window, w: Window, a: Access, facts: Facts)
    requires Wellformed(facts) && SameBounds(v, w) && Holds(v, a, facts)
    ensures Holds(w, a, facts)
  {
  }

  predicate InRange(w: Window) {
    -HALF <= w.firstCoefficient && w.lastCoefficient < HALF
  }

  /** Two windows that differ at most in being enabled. */
  predicate SameBounds(v: Window, w: Window) {
    v.(enabled := w.enabled) == w
  }

  function Enabled(windows: seq<Window>): nat {
    if windows == [] then 0 else (if windows[0].enabled then 1 else 0) + Enabled(windows[1..])
  }

  lemma {:induction false} EnableOne(windows: seq<Window>, i: nat)
    requires i < |windows| && !windows[i].enabled
    ensures Enabled(windows[i := windows[i].(enabled := true)]) == Enabled(windows) + 1
  {
    var after := windows[i := windows[i].(enabled := true)];
    if i != 0 {
      EnableOne(windows[1..], i - 1);
      assert after[1..] == windows[1..][i - 1 := windows[i].(enabled := true)];
    } else {
      assert after[1..] == windows[1..];
    }
  }

  lemma {:induction false} NoneEnabled(windows: seq<Window>)
    requires forall w <- windows :: !w.enabled
    ensures Enabled(windows) == 0
  {
    if windows != [] {
      NoneEnabled(windows[1..]);
    }
  }

  lemma JoinedHolds(w: Window, a: Access, b: Access, facts: Facts)
    requires Wellformed(facts) && Sane(a) && Placeable(a, facts) && InRange(w) && !w.enabled
    requires w == Opened(a, facts) || (Matches(w, a, facts) && Holds(w, b, facts))
    ensures var j := Joined(w, a, facts);
            Holds(j, a, facts) && InRange(j) && !j.enabled && (Holds(w, b, facts) ==> Holds(j, b, facts))
  {
  }

  /** The enabled window that the recorded access of a key was placed in. */
  function Found(windows: seq<Window>, placed: seq<Option<nat>>, accesses: seq<Access>, key: Key): (found: Option<nat>)
    requires |placed| == |accesses|
    ensures found.Some? ==>
              found.value < |windows| && windows[found.value].enabled &&
              Position(accesses, key) < |accesses| && placed[Position(accesses, key)] == found
  {
    var i := Position(accesses, key);
    if i < |accesses| && placed[i].Some? && placed[i].value < |windows| && windows[placed[i].value].enabled
    then placed[i] else None
  }

  class AddressWindows {
    var accesses: seq<Access>
    var bits: seq<Option<Word>>
    var facts: Facts
    var windows: seq<Window>
    var placed: seq<Option<nat>>
    var cycleInstructions: nat

    constructor ()
      ensures State() == START && windows == [] && placed == []
    {
      accesses, bits, facts := [], NO_BITS, INITIAL;
      windows, placed, cycleInstructions := [], [], 0;
    }

    function State(): Analysis
      reads this
    {
      Analysis(accesses, bits, facts)
    }

    method Observe(inst: Instruction, key: Option<Key>)
      requires Shaped(State())
      modifies `accesses, `bits, `facts
      ensures State() == Advance(old(State()), inst, key)
    {
      hide Noted, Observed, KnownBits, WrittenRegisters;
      if Bounded(key) {
        var found := 0;
        while found < |accesses| && accesses[found].key != key.value
          invariant 0 <= found <= |accesses|
          invariant forall k :: 0 <= k < found ==> accesses[k].key != key.value
        {
          found := found + 1;
        }
        assert found == Position(accesses, key.value);
        if found == |accesses| {
          accesses := accesses + [Noted(Unseen(key.value), facts, bits, inst.writeback)];
        } else {
          accesses := accesses[found := Noted(accesses[found], facts, bits, inst.writeback)];
        }
      }
      bits := BitsAfter(bits, inst);
      facts := Observed(facts, inst);
    }

    /** Assign each eligible access to a window and enable up to slots of them. */
    method Finish(slots: nat, cycle: nat)
      requires Shaped(State()) && AllSane(State()) && windows == []
      modifies `windows, `placed, `cycleInstructions
      ensures cycleInstructions == cycle && |placed| == |accesses|
      ensures forall i: nat :: i < |accesses| ==> Placed(windows, placed, accesses, facts, i)
      ensures forall w <- windows :: Armed(w)
      ensures Enabled(windows) <= slots
      ensures Enabled(windows) < slots ==> forall w <- windows :: !Eligible(w)
    {
      hide Placeable, Matches, Fits, StrideFor, Observed, Holds, Enabled, Sane, InRange;
      cycleInstructions := cycle;
      placed := seq(|accesses|, _ => None);
      var i: nat := 0;
      while i < |accesses|
        invariant i <= |accesses| == |placed| && cycleInstructions == cycle
        invariant forall k: nat :: k < i ==> Placed(windows, placed, accesses, facts, k)
        invariant forall w <- windows :: !w.enabled && InRange(w)
        invariant forall k: nat :: i <= k < |placed| ==> placed[k].None?
        invariant Inhabited(windows, placed, i)
      {
        assert Sane(accesses[i]);
        Place(i);
        i := i + 1;
      }
      NoneEnabled(windows);
      ghost var before := windows;
      Select(slots);
      forall k: nat | k < |accesses|
        ensures Placed(windows, placed, accesses, facts, k)
      {
        assert Placed(before, placed, accesses, facts, k);
        if placed[k].Some? {
          SameBoundsHolds(before[placed[k].value], windows[placed[k].value], accesses[k], facts);
        }
      }
    }

    /** One access joins the first window it matches, or opens its own. */
    method Place(i: nat)
      requires i < |accesses| == |placed| && Shaped(State()) && Sane(accesses[i])
      requires forall k: nat :: k < i ==> Placed(windows, placed, accesses, facts, k)
      requires placed[i].None? && forall w <- windows :: !w.enabled && InRange(w)
      requires Inhabited(windows, placed, i)
      modifies `windows, `placed
      ensures |placed| == |accesses|
      ensures forall k: nat :: k != i && k < |placed| ==> placed[k] == old(placed)[k]
      ensures forall k: nat :: k <= i ==> Placed(windows, placed, accesses, facts, k)
      ensures forall w <- windows :: !w.enabled && InRange(w)
      ensures Inhabited(windows, placed, i + 1)
    {
      hide Placeable, Matches, StrideFor, Sane;
      var a := accesses[i];
      if !Placeable(a, facts) {
        return;
      }
      var found: nat := 0;
      while found < |windows| && !Matches(windows[found], a, facts)
        invariant found <= |windows|
      {
        found := found + 1;
      }
      ghost var before := windows;
      if found == |windows| {
        OpenedRange(a, facts);
        windows := windows + [Opened(a, facts)];
        JoinedHolds(windows[found], a, a, facts);
      } else {
        var k: nat :| k < i && placed[k] == Some(found);
        assert Placed(windows, placed, accesses, facts, k);
        JoinedHolds(windows[found], a, accesses[k], facts);
      }
      windows := windows[found := Joined(windows[found], a, facts)];
      placed := placed[i := Some(found)];
      forall k: nat | k <= i
        ensures Placed(windows, placed, accesses, facts, k)
      {
        if k < i && placed[k] == Some(found) {
          assert Placed(before, old(placed), accesses, facts, k);
          JoinedHolds(before[found], a, accesses[k], facts);
        } else if k < i {
          assert Placed(before, old(placed), accesses, facts, k);
        }
      }
      forall j: nat | j < |windows|
        ensures exists k: nat :: k < i + 1 && placed[k] == Some(j)
      {
        if j == found {
          assert placed[i] == Some(j);
        } else {
          var k: nat :| k < i && old(placed)[k] == Some(j);
          assert placed[k] == Some(j);
        }
      }
    }

    /** Enable the windows with the most keys first, the earliest among equals. */
    method Select(slots: nat)
      requires forall w <- windows :: !w.enabled && InRange(w)
      requires Enabled(windows) == 0
      modifies `windows
      ensures |windows| == |old(windows)| && forall j: nat :: j < |windows| ==> SameBounds(old(windows)[j], windows[j])
      ensures (forall w <- windows :: Armed(w)) && Enabled(windows) <= slots
      ensures Enabled(windows) < slots ==> forall w <- windows :: !Eligible(w)
    {
      hide Fits, Enabled;
      var slot: nat := 0;
      while slot < slots
        invariant slot <= slots && Enabled(windows) == slot && |windows| == |old(windows)|
        invariant forall j: nat :: j < |windows| ==> SameBounds(old(windows)[j], windows[j])
        invariant forall w <- windows :: Armed(w) && InRange(w)
      {
        var best := Best();
        if best.None? {
          return;
        }
        EnableOne(windows, best.value);
        windows := windows[best.value := windows[best.value].(enabled := true)];
        slot := slot + 1;
      }
    }

    /** The earliest eligible window with the most keys. */
    method Best() returns (best: Option<nat>)
      ensures best.None? ==> forall w <- windows :: !Eligible(w)
      ensures best.Some? ==> best.value < |windows| && Eligible(windows[best.value])
      ensures best.Some? ==> forall j: nat :: j < |windows| && Eligible(windows[j]) ==>
                if j < best.value then windows[j].keys < windows[best.value].keys
                else windows[j].keys <= windows[best.value].keys
    {
      hide Fits;
      best := None;
      var j: nat := 0;
      while j < |windows|
        invariant j <= |windows|
        invariant best.None? ==> forall k: nat :: k < j ==> !Eligible(windows[k])
        invariant best.Some? ==> best.value < j && Eligible(windows[best.value])
        invariant best.Some? ==> forall k: nat :: k < j && Eligible(windows[k]) ==>
                    if k < best.value then windows[k].keys < windows[best.value].keys
                    else windows[k].keys <= windows[best.value].keys
      {
        if Eligible(windows[j]) && (best.None? || windows[j].keys > windows[best.value].keys) {
          best := Some(j);
        }
        j := j + 1;
      }
    }

    /** Bound every unrolled copy; a group of partial copies keeps no window. */
    method Expand(instructions: nat)
      requires forall w <- windows :: Armed(w)
      modifies `windows
      ensures |windows| == |old(windows)| && forall w <- windows :: Armed(w)
      ensures forall j: nat :: j < |windows| ==>
                windows[j] == if cycleInstructions == 0 || instructions % cycleInstructions != 0
                              then old(windows)[j].(enabled := false)
                              else Expanded(old(windows)[j], instructions / cycleInstructions)
    {
      hide Fits, Expanded;
      var partial := cycleInstructions == 0 || instructions % cycleInstructions != 0;
      var j: nat := 0;
      while j < |windows|
        invariant j <= |windows| == |old(windows)|
        invariant forall k: nat :: k < |windows| ==>
                    windows[k] == if k >= j then old(windows)[k]
                                  else if partial then old(windows)[k].(enabled := false)
                                  else Expanded(old(windows)[k], instructions / cycleInstructions)
        invariant forall w <- windows :: Armed(w)
      {
        if partial {
          windows := windows[j := windows[j].(enabled := false)];
        } else {
          ExpandedArmed(windows[j], instructions / cycleInstructions);
          windows := windows[j := Expanded(windows[j], instructions / cycleInstructions)];
        }
        j := j + 1;
      }
    }

    /** The enabled window an access key belongs to. */
    function Find(key: Key): (found: Option<nat>)
      requires |placed| == |accesses|
      reads this
      ensures found.Some? ==>
                found.value < |windows| && windows[found.value].enabled &&
                exists i: nat :: i < |accesses| && accesses[i].key == key && placed[i] == found
    {
      Found(windows, placed, accesses, key)
    }
  }

  lemma OpenedRange(a: Access, facts: Facts)
    requires Wellformed(facts) && Placeable(a, facts) && Sane(a)
    ensures InRange(Opened(a, facts)) && !Opened(a, facts).enabled
  {
  }
}
