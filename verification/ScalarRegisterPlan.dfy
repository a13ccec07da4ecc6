/** Packing scalar views of a cycle into spare host vector registers.

Every architectural operand of the cycle is observed first. The plan then keeps
some 32-bit words, or aligned pairs of them, in V3 to V7 and in host registers of
guest banks that the cycle never touches.
 */
module ScalarRegisterPlan {
  import opened Wrappers

  const CONSTANT_CAPACITY: nat := 5
  const WORDS: nat := 64
  const BANKS: nat := 16

  type Number = n: nat | n < 64

  datatype Use = Use(weight: nat, present: bool, written: bool, whole: bool)

  /** What the whole cycle was seen to do to single words, pairs and bulk words. */
  datatype Uses = Uses(singles: seq<Use>, doubles: seq<Use>, blocked: set<Number>) {
    predicate Valid() {
      && |singles| == WORDS && |doubles| == 32
      && (forall s <- singles :: s.written ==> s.present) && (forall d <- doubles :: d.written ==> d.present)
    }
  }

  datatype Access =
    | Scalar(word: Number, wide: bool, write: bool, bonus: nat, whole: bool)
    | Bulk(word: Number)

  /** Record one operand. Writes remove packed-bank dependencies and upper reads
      remove extraction, which is what the weights count. */
  function Observed(u: Uses, a: Access): (v: Uses)
    requires u.Valid()
    ensures v.Valid()
  {
    match a
    case Bulk(word) => u.(blocked := u.blocked + {word})
    case Scalar(word, wide, write, bonus, whole) =>
      var weight := bonus + (if write then 8 else if word % 4 != 0 then 2 else 0);
      if wide then
        var d := u.doubles[word / 2];
        u.(doubles := u.doubles[word / 2 := Use(d.weight + weight, true, d.written || write, d.whole || whole)])
      else
        var s := u.singles[word];
        u.(singles := u.singles[word := Use(s.weight + weight, true, s.written || write, s.whole || whole)])
  }

  datatype Entry = Entry(word: nat, host: nat, wide: bool, written: bool) {
    predicate Covers(w: nat) {
      word == w || (wide && word + 1 == w)
    }
  }

  datatype Candidate = Candidate(word: Number, weight: nat, wide: bool, split: bool, written: bool, upperWritten: bool)

  /** The view that may be kept for a word: a single, or a pair kept whole or split
      in two when its halves are also used on their own. */
  function CandidateAt(u: Uses, word: Number): Option<Candidate>
    requires u.Valid()
  {
    var single, dual := u.singles[word], u.doubles[word / 2];
    if single.present && single.weight != 0 && word !in u.blocked && !dual.present then
      Some(Candidate(word, single.weight, false, false, single.written, false))
    else if word % 2 == 0 && dual.present && word !in u.blocked && word + 1 !in u.blocked then
      var upper := u.singles[word + 1];
      var split := !dual.whole && (single.present || upper.present);
      var weight := dual.weight + single.weight + upper.weight;
      if weight == 0 then None
      else
        Some(Candidate(word, weight / (if split then 2 else 1), !split, split,
                       dual.written || single.written || (!split && upper.written), dual.written || upper.written))
    else None
  }

  predicate BankOccupied(u: Uses, bank: nat)
    requires u.Valid() && bank < BANKS
  {
    exists w: Number :: w / 4 == bank && Touched(u, w)
  }

  predicate Touched(u: Uses, w: Number)
    requires u.Valid()
  {
    w in u.blocked || u.singles[w].present || u.doubles[w / 2].present
  }

  /** Banks below the given one that the cycle never touches. */
  function FreeBelow(u: Uses, bank: nat): (n: nat)
    requires u.Valid() && bank <= BANKS
    ensures n <= bank
  {
    if bank == 0 then 0 else FreeBelow(u, bank - 1) + (if BankOccupied(u, bank - 1) then 0 else 1)
  }

  predicate FromUses(u: Uses, c: Candidate)
    requires u.Valid()
  {
    CandidateAt(u, c.word) == Some(c)
  }

  predicate DistinctWords(cs: seq<Candidate>) {
    forall i, j :: 0 <= i < j < |cs| ==> cs[i].word != cs[j].word
  }

  predicate AllFromUses(u: Uses, cs: seq<Candidate>)
    requires u.Valid()
  {
    forall i :: 0 <= i < |cs| ==> FromUses(u, cs[i])
  }

  /** The entries one selected candidate becomes, before hosts are assigned. */
  function EntriesOf(c: Candidate): seq<Entry> {
    [Entry(c.word, 0, c.wide, c.written)] + (if c.split then [Entry(c.word + 1, 0, false, c.upperWritten)] else [])
  }

  /** Two entries never hold the same word. */
  predicate Disjoint(a: Entry, b: Entry) {
    forall w: Number :: !(a.Covers(w) && b.Covers(w))
  }

  /** An entry holds unblocked words of one used view, is marked written whenever
      any of them is, and a used pair is kept whole or in two halves. */
  predicate EntryValid(u: Uses, e: Entry)
    requires u.Valid()
  {
    && e.word < WORDS && (e.wide ==> e.word % 2 == 0)
    && (forall w: Number :: e.Covers(w) ==>
          w !in u.blocked && (u.singles[w].written || u.doubles[w / 2].written ==> e.written))
  }

  /** A pair the cycle uses as a double is held whole, in two halves, or not at all. */
  predicate PairHeld(entries: seq<Entry>, d: nat) {
    && (Holds(entries, 2 * d, false) <==> Holds(entries, 2 * d + 1, false))
    && !Holds(entries, 2 * d + 1, true)
  }

  predicate Holds(entries: seq<Entry>, word: nat, wide: bool) {
    exists i :: 0 <= i < |entries| && entries[i].word == word && entries[i].wide == wide
  }

  predicate PairsHeld(u: Uses, entries: seq<Entry>)
    requires u.Valid()
  {
    forall d: nat :: d < 32 && u.doubles[d].present ==> PairHeld(entries, d)
  }

  predicate Packed(u: Uses, entries: seq<Entry>)
    requires u.Valid()
  {
    && (forall i :: 0 <= i < |entries| ==> EntryValid(u, entries[i]))
    && (forall i, j :: 0 <= i < j < |entries| ==> Disjoint(entries[i], entries[j]))
    && PairsHeld(u, entries)
  }

  function ScalarCapacity(units: nat): nat
    requires units <= 2
  {
    CONSTANT_CAPACITY - units
  }

  /** Constant-pool registers taken by the plan. */
  function ConstantSlots(count: nat, units: nat): nat
    requires units <= 2
  {
    if count < ScalarCapacity(units) then count else ScalarCapacity(units)
  }

  /** Hosts are distinct: the first ones from V3 on, the others in untouched banks. */
  predicate Placed(u: Uses, entries: seq<Entry>, units: nat)
    requires u.Valid() && units <= 2
  {
    && (forall i, j :: 0 <= i < j < |entries| ==> entries[i].host != entries[j].host)
    && (forall i :: 0 <= i < |entries| ==> HostValid(u, entries[i].host, i, units))
  }

  predicate HostValid(u: Uses, host: nat, i: nat, units: nat)
    requires u.Valid() && units <= 2
  {
    if i < ScalarCapacity(units) then host == 3 + i
    else 16 <= host < 32 && !BankOccupied(u, host - 16)
  }

  /** The views of the chosen candidates, in order. */
  function Flatten(chosen: seq<Candidate>): seq<Entry> {
    if chosen == [] then [] else Flatten(chosen[..|chosen| - 1]) + EntriesOf(chosen[|chosen| - 1])
  }

  /** One candidate's own views are valid and do not overlap each other. */
  lemma CandidateEntries(u: Uses, c: Candidate)
    requires u.Valid() && FromUses(u, c)
    ensures forall e <- EntriesOf(c) :: EntryValid(u, e) && e.host == 0
    ensures c.split ==> Disjoint(EntriesOf(c)[0], EntriesOf(c)[1])
  {
  }

  /** Different candidates never share a word: a single is a candidate only where
      no pair is used, and pairs are aligned. */
  lemma CandidatesDisjoint(u: Uses, a: Candidate, b: Candidate, e: Entry, f: Entry)
    requires u.Valid() && FromUses(u, a) && FromUses(u, b) && a.word != b.word
    requires e in EntriesOf(a) && f in EntriesOf(b)
    ensures Disjoint(e, f)
  {
    forall w: Number
      ensures !(e.Covers(w) && f.Covers(w))
    {
      assert e.Covers(w) ==> w / 2 == a.word / 2;
      assert f.Covers(w) ==> w / 2 == b.word / 2;
    }
  }

  lemma {:induction false} FlattenFrom(chosen: seq<Candidate>, e: Entry)
    requires e in Flatten(chosen)
    ensures exists c :: c in chosen && e in EntriesOf(c)
  {
    var front, last := chosen[..|chosen| - 1], chosen[|chosen| - 1];
    if e in EntriesOf(last) {
      assert last in chosen;
    } else {
      FlattenFrom(front, e);
      var c :| c in front && e in EntriesOf(c);
      assert c in chosen;
    }
  }

  lemma {:induction false} FlattenHas(chosen: seq<Candidate>, c: Candidate, e: Entry)
    requires c in chosen && e in EntriesOf(c)
    ensures e in Flatten(chosen)
  {
    var front, last := chosen[..|chosen| - 1], chosen[|chosen| - 1];
    if c != last {
      assert chosen == front + [last];
      FlattenHas(front, c, e);
    }
  }

  lemma {:induction false} FlattenDisjoint(u: Uses, chosen: seq<Candidate>)
    requires u.Valid() && AllFromUses(u, chosen) && DistinctWords(chosen)
    ensures forall i, j :: 0 <= i < j < |Flatten(chosen)| ==> Disjoint(Flatten(chosen)[i], Flatten(chosen)[j])
    ensures forall e <- Flatten(chosen) :: EntryValid(u, e)
  {
    hide FromUses, Disjoint, EntryValid;
    if chosen != [] {
      var front, last := chosen[..|chosen| - 1], chosen[|chosen| - 1];
      FlattenDisjoint(u, front);
      CandidateEntries(u, last);
      forall e, f | e in Flatten(front) && f in EntriesOf(last)
        ensures Disjoint(e, f)
      {
        FlattenFrom(front, e);
        var c :| c in front && e in EntriesOf(c);
        var i :| 0 <= i < |front| && front[i] == c;
        assert chosen[i] == c;
        CandidatesDisjoint(u, c, last, e, f);
      }
      hide EntriesOf;
      assert |EntriesOf(last)| <= 2 && (|EntriesOf(last)| == 2 ==> Disjoint(EntriesOf(last)[0], EntriesOf(last)[1])) by {
        OneOrTwo(last);
      }
    }
  }

  lemma OneOrTwo(c: Candidate)
    ensures |EntriesOf(c)| == if c.split then 2 else 1
  {
  }

  lemma PairView(u: Uses, c: Candidate, e: Entry, d: nat)
    requires u.Valid() && FromUses(u, c) && e in EntriesOf(c) && d < 32 && u.doubles[d].present
    requires e.word == 2 * d || e.word == 2 * d + 1
    ensures e.wide ==> e.word == 2 * d
    ensures !e.wide ==> EntriesOf(c) == [Entry(2 * d, 0, false, c.written), Entry(2 * d + 1, 0, false, c.upperWritten)]
  {
  }

  lemma FlattenPair(u: Uses, chosen: seq<Candidate>, e: Entry, d: nat)
    requires u.Valid() && AllFromUses(u, chosen) && e in Flatten(chosen) && d < 32 && u.doubles[d].present
    requires e.word == 2 * d || e.word == 2 * d + 1
    ensures e.wide ==> e.word == 2 * d
    ensures !e.wide ==> Holds(Flatten(chosen), 2 * d, false) && Holds(Flatten(chosen), 2 * d + 1, false)
  {
    hide FromUses;
    FlattenFrom(chosen, e);
    var c :| c in chosen && e in EntriesOf(c);
    assert FromUses(u, c);
    PairView(u, c, e, d);
    if !e.wide {
      FlattenHas(chosen, c, EntriesOf(c)[0]);
      FlattenHas(chosen, c, EntriesOf(c)[1]);
    }
  }

  lemma FlattenPairs(u: Uses, chosen: seq<Candidate>)
    requires u.Valid() && AllFromUses(u, chosen)
    ensures PairsHeld(u, Flatten(chosen))
  {
    hide AllFromUses, Flatten;
    var entries := Flatten(chosen);
    forall d: nat | d < 32 && u.doubles[d].present
      ensures PairHeld(entries, d)
    {
      forall i | 0 <= i < |entries| && (entries[i].word == 2 * d || entries[i].word == 2 * d + 1)
        ensures entries[i].wide ==> entries[i].word == 2 * d
        ensures !entries[i].wide ==> Holds(entries, 2 * d, false) && Holds(entries, 2 * d + 1, false)
      {
        FlattenPair(u, chosen, entries[i], d);
      }
    }
  }

  lemma FlattenPacked(u: Uses, chosen: seq<Candidate>)
    requires u.Valid() && AllFromUses(u, chosen) && DistinctWords(chosen)
    ensures Packed(u, Flatten(chosen))
  {
    hide FromUses, Disjoint, EntryValid, PairsHeld;
    FlattenDisjoint(u, chosen);
    FlattenPairs(u, chosen);
    var entries := Flatten(chosen);
    assert forall i :: 0 <= i < |entries| ==> entries[i] in entries;
  }

  /** Only the hosts differ. */
  predicate SameViews(a: seq<Entry>, b: seq<Entry>) {
    |a| == |b| && forall i :: 0 <= i < |a| ==> a[i].(host := 0) == b[i].(host := 0)
  }

  lemma SameViewsPacked(u: Uses, a: seq<Entry>, b: seq<Entry>)
    requires u.Valid() && Packed(u, a) && SameViews(a, b)
    ensures Packed(u, b)
  {
    forall i | 0 <= i < |b|
      ensures EntryValid(u, b[i])
    {
      assert EntryValid(u, a[i]);
      assert forall w: Number :: b[i].Covers(w) <==> a[i].Covers(w);
    }
    forall i, j | 0 <= i < j < |b|
      ensures Disjoint(b[i], b[j])
    {
      assert Disjoint(a[i], a[j]);
      SameCovers(a[i], b[i]);
      SameCovers(a[j], b[j]);
    }
    forall d: nat | d < 32 && u.doubles[d].present
      ensures PairHeld(b, d)
    {
      SameHolds(a, b, 2 * d, false);
      SameHolds(a, b, 2 * d + 1, false);
      SameHolds(a, b, 2 * d + 1, true);
      assert PairHeld(a, d);
    }
  }

  lemma SameCovers(a: Entry, b: Entry)
    requires a.(host := 0) == b.(host := 0)
    ensures forall w: Number :: a.Covers(w) <==> b.Covers(w)
  {
  }

  lemma SameHolds(a: seq<Entry>, b: seq<Entry>, word: nat, wide: bool)
    requires SameViews(a, b)
    ensures Holds(a, word, wide) <==> Holds(b, word, wide)
  {
    if Holds(a, word, wide) {
      var i :| 0 <= i < |a| && a[i].word == word && a[i].wide == wide;
      assert b[i].(host := 0) == a[i].(host := 0);
    }
    if Holds(b, word, wide) {
      var i :| 0 <= i < |b| && b[i].word == word && b[i].wide == wide;
      assert b[i].(host := 0) == a[i].(host := 0);
    }
  }

  /** Heavier views first; the lower word among equals. */
  predicate Before(a: Candidate, b: Candidate) {
    a.weight > b.weight || (a.weight == b.weight && a.word < b.word)
  }

  predicate Ordered(cs: seq<Candidate>) {
    forall i, j :: 0 <= i < j < |cs| ==> Before(cs[i], cs[j])
  }

  /** Adjacent candidates in order, with distinct words, are all in order. */
  lemma {:induction false} SortedOrdered(cs: seq<Candidate>, i: nat, j: nat)
    requires DistinctWords(cs) && i < j < |cs|
    requires forall k :: 0 <= k < |cs| - 1 ==> !Before(cs[k + 1], cs[k])
    ensures Before(cs[i], cs[j])
    decreases j
  {
    assert !Before(cs[j], cs[j - 1]);
    if i < j - 1 {
      SortedOrdered(cs, i, j - 1);
    }
  }

  function SlotsOf(c: Candidate): nat {
    if c.split then 2 else 1
  }

  /** Views before a host is assigned, or after. */
  predicate Includes(views: seq<Entry>, e: Entry) {
    exists i :: 0 <= i < |views| && views[i].(host := 0) == e
  }

  /** All of a candidate's views are in the plan. */
  predicate Taken(views: seq<Entry>, c: Candidate) {
    forall e <- EntriesOf(c) :: Includes(views, e)
  }

  /** A view of a candidate that comes before c. */
  ghost predicate FromHeavier(u: Uses, e: Entry, c: Candidate)
    requires u.Valid()
  {
    exists a: Candidate :: FromUses(u, a) && Before(a, c) && e.(host := 0) in EntriesOf(a)
  }

  /** The first n views come from candidates before c and leave it no room. */
  ghost predicate Outweighed(u: Uses, views: seq<Entry>, c: Candidate, available: nat)
    requires u.Valid()
  {
    exists n: nat :: n <= |views| && n + SlotsOf(c) > available && Heavier(u, views, c, n)
  }

  ghost predicate Heavier(u: Uses, views: seq<Entry>, c: Candidate, n: nat)
    requires u.Valid() && n <= |views|
  {
    forall k :: 0 <= k < n ==> FromHeavier(u, views[k], c)
  }

  /** The verdict on a candidate survives more views and the choice of hosts. */
  lemma VerdictStays(u: Uses, views: seq<Entry>, more: seq<Entry>, c: Candidate, available: nat)
    requires u.Valid() && |views| <= |more| && SameViews(views, more[..|views|])
    requires Taken(views, c) || Outweighed(u, views, c, available)
    ensures Taken(more, c) || Outweighed(u, more, c, available)
  {
    hide FromUses, EntriesOf, Before;
    if Taken(views, c) {
      forall e | e in EntriesOf(c)
        ensures Includes(more, e)
      {
        var i :| 0 <= i < |views| && views[i].(host := 0) == e;
        assert more[..|views|][i].(host := 0) == e;
      }
    } else {
      var n: nat :| n <= |views| && n + SlotsOf(c) > available && Heavier(u, views, c, n);
      forall k | 0 <= k < n
        ensures FromHeavier(u, more[k], c)
      {
        assert FromHeavier(u, views[k], c) && more[..|views|][k].(host := 0) == views[k].(host := 0);
      }
      assert Heavier(u, more, c, n);
    }
  }

  class Builder {
    var uses: Uses

    constructor ()
      ensures uses.Valid() && forall w: Number :: !Touched(uses, w)
    {
      uses := Uses(seq(64, _ => Use(0, false, false, false)), seq(32, _ => Use(0, false, false, false)), {});
    }

    method Observe(a: Access)
      requires uses.Valid()
      modifies this
      ensures uses == Observed(old(uses), a)
    {
      uses := Observed(uses, a);
    }

    /** The plan for the uses seen so far. */
    method Finish(units: nat) returns (entries: seq<Entry>)
      requires uses.Valid() && units <= 2
      ensures Packed(uses, entries) && Placed(uses, entries, units)
      ensures |entries| <= ScalarCapacity(units) + FreeBelow(uses, BANKS)
      ensures forall w: Number :: CandidateAt(uses, w).Some? ==>
                Taken(entries, CandidateAt(uses, w).value) ||
                Outweighed(uses, entries, CandidateAt(uses, w).value, ScalarCapacity(units) + FreeBelow(uses, BANKS))
    {
      hide Packed, Placed, CandidateAt, Taken, Outweighed, Before, FromUses;
      var candidates := Candidates(uses);
      var sorted := Sort(uses, candidates);
      forall i, j | 0 <= i < j < |sorted|
        ensures Before(sorted[i], sorted[j])
      {
        SortedOrdered(sorted, i, j);
      }
      var available := ScalarCapacity(units) + FreeBelow(uses, BANKS);
      var views := Choose(uses, sorted, available);
      entries := Place(uses, views, units);
      SameViewsPacked(uses, views, entries);
      forall w: Number | CandidateAt(uses, w).Some?
        ensures var c := CandidateAt(uses, w).value; Taken(entries, c) || Outweighed(uses, entries, c, available)
      {
        assert entries[..|views|] == entries;
        VerdictStays(uses, views, entries, CandidateAt(uses, w).value, available);
      }
    }
  }

  method Candidates(u: Uses) returns (cs: seq<Candidate>)
    requires u.Valid()
    ensures AllFromUses(u, cs) && DistinctWords(cs)
    ensures forall w: Number :: CandidateAt(u, w).Some? ==> CandidateAt(u, w).value in cs
  {
    hide CandidateAt;
    cs := [];
    var word: nat := 0;
    while word < WORDS
      invariant word <= WORDS && AllFromUses(u, cs) && DistinctWords(cs)
      invariant forall c <- cs :: c.word < word
      invariant forall w: Number :: w < word && CandidateAt(u, w).Some? ==> CandidateAt(u, w).value in cs
    {
      var c := CandidateAt(u, word);
      CandidateWord(u, word);
      if c.Some? {
        cs := cs + [c.value];
      }
      word := word + 1;
    }
  }

  lemma CandidateWord(u: Uses, word: Number)
    requires u.Valid()
    ensures CandidateAt(u, word).Some? ==> CandidateAt(u, word).value.word == word
  {
  }

  lemma InsertedCandidate(u: Uses, r: seq<Candidate>, x: Candidate, i: nat)
    requires u.Valid() && AllFromUses(u, r) && DistinctWords(r) && FromUses(u, x) && i <= |r|
    requires forall c <- r :: c.word != x.word
    ensures var s := r[..i] + [x] + r[i..];
            AllFromUses(u, s) && DistinctWords(s) && forall c :: c in s <==> c in r || c == x
  {
    hide FromUses;
    var s := r[..i] + [x] + r[i..];
    assert r == r[..i] + r[i..];
  }

  /** Order the candidates by weight. */
  method Sort(u: Uses, cs: seq<Candidate>) returns (sorted: seq<Candidate>)
    requires u.Valid() && AllFromUses(u, cs) && DistinctWords(cs)
    ensures AllFromUses(u, sorted) && DistinctWords(sorted)
    ensures forall c :: c in sorted <==> c in cs
    ensures forall i :: 0 <= i < |sorted| - 1 ==> !Before(sorted[i + 1], sorted[i])
  {
    hide FromUses, Before;
    sorted := [];
    var n: nat := 0;
    while n < |cs|
      invariant n <= |cs| && AllFromUses(u, sorted) && DistinctWords(sorted)
      invariant forall c :: c in sorted <==> c in cs[..n]
      invariant forall i :: 0 <= i < |sorted| - 1 ==> !Before(sorted[i + 1], sorted[i])
    {
      assert cs[..n + 1] == cs[..n] + [cs[n]];
      var i: nat := 0;
      while i < |sorted| && !Before(cs[n], sorted[i])
        invariant i <= |sorted| && (i > 0 ==> !Before(cs[n], sorted[i - 1]))
      {
        i := i + 1;
      }
      InsertedCandidate(u, sorted, cs[n], i);
      InsertedOrder(sorted, cs[n], i);
      sorted := sorted[..i] + [cs[n]] + sorted[i..];
      n := n + 1;
    }
    assert cs[..n] == cs;
  }

  lemma InsertedOrder(r: seq<Candidate>, x: Candidate, i: nat)
    requires i <= |r| && (i > 0 ==> !Before(x, r[i - 1])) && (i < |r| ==> Before(x, r[i]))
    requires forall k :: 0 <= k < |r| - 1 ==> !Before(r[k + 1], r[k])
    ensures var s := r[..i] + [x] + r[i..];
            forall k :: 0 <= k < |s| - 1 ==> !Before(s[k + 1], s[k])
  {
    var s := r[..i] + [x] + r[i..];
    forall k | 0 <= k < |s| - 1
      ensures !Before(s[k + 1], s[k])
    {
      if k + 1 < i {
        assert s[k] == r[k] && s[k + 1] == r[k + 1];
      } else if k > i {
        assert s[k] == r[k - 1] && s[k + 1] == r[k];
      }
    }
  }

  /** Take candidates in order while their views still fit: one that is left out
      was already left no room by candidates before it. */
  method Choose(u: Uses, cs: seq<Candidate>, available: nat) returns (views: seq<Entry>)
    requires u.Valid() && AllFromUses(u, cs) && DistinctWords(cs) && Ordered(cs)
    ensures Packed(u, views) && |views| <= available
    ensures forall c <- cs :: Taken(views, c) || Outweighed(u, views, c, available)
  {
    hide FromUses, Packed, EntriesOf, Before, Taken, Outweighed;
    views := [];
    ghost var chosen: seq<Candidate> := [];
    var i: nat := 0;
    while i < |cs|
      invariant i <= |cs| && views == Flatten(chosen) && |views| <= available
      invariant AllFromUses(u, chosen) && DistinctWords(chosen)
      invariant forall c <- chosen :: c in cs[..i]
      invariant forall c <- cs[..i] :: Taken(views, c) || Outweighed(u, views, c, available)
    {
      var c := cs[i];
      ghost var before := views;
      assert cs[..i + 1] == cs[..i] + [c];
      OneOrTwo(c);
      if |views| + SlotsOf(c) <= available {
        assert (chosen + [c])[..|chosen|] == chosen;
        assert FromUses(u, cs[i]);
        assert forall d <- chosen :: d.word != c.word;
        views := views + EntriesOf(c);
        chosen := chosen + [c];
        AppendedTaken(before, c);
      } else {
        NoRoom(u, cs, i, chosen, available);
      }
      forall d | d in cs[..i]
        ensures Taken(views, d) || Outweighed(u, views, d, available)
      {
        assert views[..|before|] == before;
        VerdictStays(u, before, views, d, available);
      }
      i := i + 1;
    }
    assert cs[..i] == cs;
    FlattenPacked(u, chosen);
  }

  lemma AppendedTaken(before: seq<Entry>, c: Candidate)
    ensures Taken(before + EntriesOf(c), c)
  {
    var views := before + EntriesOf(c);
    forall e | e in EntriesOf(c)
      ensures Includes(views, e)
    {
      var i :| 0 <= i < |EntriesOf(c)| && EntriesOf(c)[i] == e;
      assert views[|before| + i].(host := 0) == e;
    }
  }

  /** What was chosen among the first i candidates leaves no room for the next. */
  lemma NoRoom(u: Uses, cs: seq<Candidate>, i: nat, chosen: seq<Candidate>, available: nat)
    requires u.Valid() && i < |cs| && Ordered(cs) && AllFromUses(u, chosen) && forall c <- chosen :: c in cs[..i]
    requires |Flatten(chosen)| + SlotsOf(cs[i]) > available
    ensures Outweighed(u, Flatten(chosen), cs[i], available)
  {
    hide FromUses, Before, EntriesOf;
    var views := Flatten(chosen);
    forall k | 0 <= k < |views|
      ensures FromHeavier(u, views[k], cs[i])
    {
      FlattenFrom(chosen, views[k]);
      var a :| a in chosen && views[k] in EntriesOf(a);
      var j :| 0 <= j < |chosen| && chosen[j] == a;
      assert FromUses(u, chosen[j]);
      var n :| 0 <= n < i && cs[n] == a;
      assert Before(cs[n], cs[i]);
      Unplaced(a, views[k]);
    }
    assert Heavier(u, views, cs[i], |views|);
  }

  lemma Unplaced(c: Candidate, e: Entry)
    requires e in EntriesOf(c)
    ensures e.(host := 0) == e
  {
  }

  /** Give each view a host register; an untouched bank is always left. */
  method Place(u: Uses, views: seq<Entry>, units: nat) returns (entries: seq<Entry>)
    requires u.Valid() && units <= 2 && |views| <= ScalarCapacity(units) + FreeBelow(u, BANKS)
    ensures SameViews(views, entries) && Placed(u, entries, units)
  {
    hide BankOccupied;
    var capacity := ScalarCapacity(units);
    entries := views;
    var bank: nat, i: nat := 0, 0;
    while i < |entries|
      invariant i <= |entries| && SameViews(views, entries) && bank <= BANKS
      invariant FreeBelow(u, bank) == if i < capacity then 0 else i - capacity
      invariant i <= capacity ==> bank == 0
      invariant forall j :: 0 <= j < i ==> HostValid(u, entries[j].host, j, units)
      invariant forall j :: capacity <= j < i ==> entries[j].host < 16 + bank
      invariant forall j, k :: 0 <= j < k < i ==> entries[j].host != entries[k].host
    {
      if i < capacity {
        entries := entries[i := entries[i].(host := 3 + i)];
      } else {
        bank := NextFree(u, bank);
        entries := entries[i := entries[i].(host := 16 + bank)];
        bank := bank + 1;
      }
      i := i + 1;
    }
  }

  method NextFree(u: Uses, start: nat) returns (bank: nat)
    requires u.Valid() && start <= BANKS && FreeBelow(u, start) < FreeBelow(u, BANKS)
    ensures start <= bank < BANKS && !BankOccupied(u, bank) && FreeBelow(u, bank) == FreeBelow(u, start)
  {
    hide BankOccupied;
    bank := start;
    while bank < BANKS && BankOccupied(u, bank)
      invariant start <= bank <= BANKS && FreeBelow(u, bank) == FreeBelow(u, start)
    {
      bank := bank + 1;
    }
  }
}
