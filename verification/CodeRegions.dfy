/** Authorised instruction regions: filtered, sorted and merged, so that a lookup
    yields exactly the authorised addresses and never bridges a gap. */
module CodeRegions {
  import opened Wrappers
  import opened Regions

  const CAPACITY: nat := 4

  /** Some usable region of the list holds the address. */
  ghost predicate Authorised(regions: seq<Region>, a: nat) {
    exists r :: r in regions && r.Usable() && r.Has(a)
  }

  ghost predicate SameAddresses(r: seq<Region>, s: seq<Region>) {
    forall a: nat :: Authorised(r, a) <==> Authorised(s, a)
  }

  predicate Sorted(r: seq<Region>) {
    forall i, j :: 0 <= i < j < |r| ==> r[i].begin <= r[j].begin
  }

  predicate AllUsable(r: seq<Region>) {
    forall i :: 0 <= i < |r| ==> r[i].Usable()
  }

  /** Regions with unauthorised addresses between any two. */
  predicate Separated(r: seq<Region>) {
    AllUsable(r) && forall i, j :: 0 <= i < j < |r| ==> r[i].end < r[j].begin
  }

  lemma AuthorisedAppend(r: seq<Region>, x: Region, a: nat)
    ensures Authorised(r + [x], a) <==> Authorised(r, a) || (x.Usable() && x.Has(a))
  {
    assert x in r + [x];
    if Authorised(r, a) {
      var y :| y in r && y.Usable() && y.Has(a);
      assert y in r + [x];
    }
  }

  /** Touching or overlapping regions merge into one without new addresses. */
  lemma MergeLast(front: seq<Region>, last: Region, next: Region)
    requires last.Usable() && next.Usable() && last.begin <= next.begin <= last.end
    ensures var merged := Region(last.begin, if last.end >= next.end then last.end else next.end);
            SameAddresses(front + [merged], (front + [last]) + [next])
  {
    var merged := Region(last.begin, if last.end >= next.end then last.end else next.end);
    forall a: nat
      ensures Authorised(front + [merged], a) <==> Authorised((front + [last]) + [next], a)
    {
      AuthorisedAppend(front, merged, a);
      AuthorisedAppend(front, last, a);
      AuthorisedAppend(front + [last], next, a);
    }
  }

  lemma AppendBoth(r: seq<Region>, s: seq<Region>, x: Region)
    requires SameAddresses(r, s)
    ensures SameAddresses(r + [x], s + [x])
  {
    forall a: nat
      ensures Authorised(r + [x], a) <==> Authorised(s + [x], a)
    {
      AuthorisedAppend(r, x, a);
      AuthorisedAppend(s, x, a);
      assert Authorised(r, a) <==> Authorised(s, a);
    }
  }

  lemma SkipUnusable(r: seq<Region>, s: seq<Region>, x: Region)
    requires SameAddresses(r, s) && !x.Usable()
    ensures SameAddresses(r, s + [x])
  {
    forall a: nat
      ensures Authorised(r, a) <==> Authorised(s + [x], a)
    {
      AuthorisedAppend(s, x, a);
      assert Authorised(r, a) <==> Authorised(s, a);
    }
  }

  lemma SameMembers(r: seq<Region>, s: seq<Region>)
    requires forall x :: x in r <==> x in s
    ensures SameAddresses(r, s)
  {
  }

  /** Element j of the list with x inserted at i. */
  lemma InsertedElement(r: seq<Region>, x: Region, i: nat, j: nat)
    requires i <= |r| && j <= |r|
    ensures (r[..i] + [x] + r[i..])[j] == if j < i then r[j] else if j == i then x else r[j - 1]
  {
  }

  lemma InsertedSorted(r: seq<Region>, x: Region, i: nat)
    requires Sorted(r) && AllUsable(r) && x.Usable() && i <= |r|
    requires i > 0 ==> r[i - 1].begin <= x.begin
    requires i < |r| ==> x.begin < r[i].begin
    ensures Sorted(r[..i] + [x] + r[i..]) && AllUsable(r[..i] + [x] + r[i..])
  {
    var s := r[..i] + [x] + r[i..];
    var n := |s|;
    forall j, k | 0 <= j < k < n
      ensures s[j].begin <= s[k].begin
    {
      InsertedElement(r, x, i, j);
      InsertedElement(r, x, i, k);
    }
    forall j | 0 <= j < n
      ensures s[j].Usable()
    {
      InsertedElement(r, x, i, j);
    }
  }

  lemma InsertedMembers(r: seq<Region>, x: Region, i: nat)
    requires i <= |r|
    ensures forall y :: y in r[..i] + [x] + r[i..] <==> y in r + [x]
  {
    assert r == r[..i] + r[i..];
  }

  /** Insertion into a sorted list. */
  method Insert(r: seq<Region>, x: Region) returns (s: seq<Region>)
    requires Sorted(r) && AllUsable(r) && x.Usable()
    ensures Sorted(s) && AllUsable(s) && |s| == |r| + 1
    ensures forall y :: y in s <==> y in r + [x]
  {
    hide Sorted, AllUsable;
    var i := |r|;
    while i > 0 && r[i - 1].begin > x.begin
      invariant 0 <= i <= |r| && (i < |r| ==> r[i].begin > x.begin)
    {
      i := i - 1;
    }
    s := r[..i] + [x] + r[i..];
    InsertedSorted(r, x, i);
    InsertedMembers(r, x, i);
  }

  lemma SameChain(r: seq<Region>, s: seq<Region>, t: seq<Region>)
    requires SameAddresses(r, s) && SameAddresses(s, t)
    ensures SameAddresses(r, t)
  {
    hide Authorised;
  }

  /** The usable regions in order of their first address. */
  method SortUsable(input: seq<Region>) returns (sorted: seq<Region>)
    ensures |sorted| <= |input| && Sorted(sorted) && AllUsable(sorted) && SameAddresses(sorted, input)
  {
    hide SameAddresses, Sorted, AllUsable;
    var n: nat := 0;
    sorted := [];
    NoneUsable();
    while n < |input|
      invariant n <= |input| && |sorted| <= n
      invariant Sorted(sorted) && AllUsable(sorted) && SameAddresses(sorted, input[..n])
    {
      assert input[..n + 1] == input[..n] + [input[n]];
      if input[n].Usable() {
        var before := sorted;
        sorted := Insert(before, input[n]);
        AppendBoth(before, input[..n], input[n]);
        SameMembers(sorted, before + [input[n]]);
        SameChain(sorted, before + [input[n]], input[..n + 1]);
      } else {
        SkipUnusable(sorted, input[..n], input[n]);
      }
      n := n + 1;
    }
    assert input[..n] == input;
  }

  lemma NoneUsable()
    ensures Sorted([]) && AllUsable([]) && Separated([]) && SameAddresses([], [])
  {
  }

  lemma SortedNext(r: seq<Region>, i: nat)
    requires Sorted(r) && AllUsable(r) && i < |r|
    ensures r[i].Usable() && (i + 1 < |r| ==> r[i].begin <= r[i + 1].begin)
  {
  }

  lemma LastUsable(r: seq<Region>)
    requires Separated(r) && r != []
    ensures r[|r| - 1].Usable()
  {
  }

  /** A region past the end of the last one stays apart from all. */
  lemma Extended(r: seq<Region>, x: Region)
    requires Separated(r) && x.Usable() && (r == [] || r[|r| - 1].end < x.begin)
    ensures Separated(r + [x])
  {
  }

  /** Widening the last region upwards keeps it apart from the earlier ones. */
  lemma Widened(front: seq<Region>, last: Region, next: Region)
    requires Separated(front + [last]) && next.Usable() && last.begin <= next.begin
    ensures Separated(front + [Region(last.begin, if last.end >= next.end then last.end else next.end)])
  {
    var r, s := front + [last], front + [Region(last.begin, if last.end >= next.end then last.end else next.end)];
    forall i, j | 0 <= i < j < |s|
      ensures s[i].end < s[j].begin
    {
      assert r[i].end < r[j].begin;
    }
    forall i | 0 <= i < |s|
      ensures s[i].Usable()
    {
      assert r[i].Usable();
    }
  }

  class CodeRegions {
    var regions: seq<Region>

    constructor ()
      ensures regions == []
    {
      regions := [];
    }

    /** Load the authorised regions; too many are refused. */
    method Load(input: seq<Region>) returns (accepted: bool)
      modifies this
      ensures accepted <==> |input| <= CAPACITY
      ensures accepted ==> Separated(regions) && |regions| <= CAPACITY && SameAddresses(regions, input)
      ensures !accepted ==> regions == old(regions)
    {
      if |input| > CAPACITY {
        return false;
      }
      hide SameAddresses, Separated, Sorted, AllUsable;
      var sorted := SortUsable(input);
      regions := [];
      var i: nat := 0;
      NoneUsable();
      assert sorted[..0] == [];
      while i < |sorted|
        invariant i <= |sorted| && |regions| <= i && Separated(regions)
        invariant SameAddresses(regions, sorted[..i])
        invariant regions != [] && i < |sorted| ==> regions[|regions| - 1].begin <= sorted[i].begin
        invariant regions == [] ==> i == 0
      {
        ghost var before := regions;
        assert sorted[..i + 1] == sorted[..i] + [sorted[i]];
        AppendBoth(regions, sorted[..i], sorted[i]);
        SortedNext(sorted, i);
        if regions != [] && sorted[i].begin <= regions[|regions| - 1].end {
          var front, last := regions[..|regions| - 1], regions[|regions| - 1];
          assert regions == front + [last];
          LastUsable(regions);
          Widened(front, last, sorted[i]);
          MergeLast(front, last, sorted[i]);
          regions := front + [Region(last.begin, if last.end >= sorted[i].end then last.end else sorted[i].end)];
        } else {
          Extended(regions, sorted[i]);
          regions := regions + [sorted[i]];
          SameMembers(regions, before + [sorted[i]]);
        }
        SameChain(regions, before + [sorted[i]], sorted[..i + 1]);
        i := i + 1;
      }
      assert sorted[..i] == sorted;
      SameChain(regions, sorted, input);
      return true;
    }

    /** The region around an address. */
    method Containing(pc: nat) returns (found: Option<Region>)
      requires Separated(regions)
      ensures found.Some? <==> Authorised(regions, pc)
      ensures found.Some? ==> found.value in regions && found.value.Has(pc)
    {
      var i: nat := 0;
      while i < |regions|
        invariant i <= |regions| && forall k :: 0 <= k < i ==> !regions[k].Has(pc)
      {
        if regions[i].Has(pc) {
          assert regions[i] in regions && regions[i].Usable();
          return Some(regions[i]);
        }
        i := i + 1;
      }
      return None;
    }
  }

  /** A region found after merging is wholly authorised by the input and cannot be
      extended: the addresses just outside it are not authorised. */
  lemma FoundIsMaximal(regions: seq<Region>, input: seq<Region>, r: Region)
    requires Separated(regions) && SameAddresses(regions, input) && r in regions
    ensures forall a: nat :: r.Has(a) ==> Authorised(input, a)
    ensures !Authorised(input, r.end) && (r.begin > 0 ==> !Authorised(input, r.begin - 1))
  {
    forall a: nat | r.Has(a)
      ensures Authorised(input, a)
    {
      assert Authorised(regions, a);
    }
    assert Authorised(regions, r.end) <==> Authorised(input, r.end);
    if r.begin > 0 {
      var before: nat := r.begin - 1;
      assert Authorised(regions, before) <==> Authorised(input, before);
    }
  }
}
