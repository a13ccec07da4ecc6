/** Byte accounting of the code cache over its recency list.

Every retained byte is an entry's, a domain's or the continuation storage's; the
recency list holds each entry exactly once, oldest first.
 */
module CacheAccounting {
  import opened Words
  import opened Wrappers
  import opened Regions

  /** A translation key: its entry address and everything else that distinguishes it. */
  datatype Key = Key(pc: Word, rest: nat)

  /** A key within a domain; domain zero is the anonymous one. */
  datatype Place = Place(domain: nat, key: Key)

  datatype Entry = Entry(accounted: nat, dependency: Region)

  datatype Domain = Domain(generation: Option<nat>, retained: nat)

  datatype Cache = Cache(
    entries: map<Place, Entry>, recent: seq<Place>, anonymous: Domain, domains: map<nat, Domain>,
    retained: nat, continuations: Option<nat>, revision: nat)

  predicate Picks(pick: Option<nat>, p: Place) {
    pick.None? || pick.value == p.domain
  }

  /** Accounted bytes of the listed entries, of one domain or of all. */
  function Sum(entries: map<Place, Entry>, r: seq<Place>, pick: Option<nat>): nat {
    if r == [] then 0
    else
      var last := r[|r| - 1];
      Sum(entries, r[..|r| - 1], pick) + (if last in entries && Picks(pick, last) then entries[last].accounted else 0)
  }

  /** The list without one place. */
  function Drop(r: seq<Place>, p: Place): seq<Place> {
    if r == [] then []
    else
      var last := r[|r| - 1];
      if last == p then Drop(r[..|r| - 1], p) else Drop(r[..|r| - 1], p) + [last]
  }

  /** The list without one domain. */
  function DropDomain(r: seq<Place>, id: nat): seq<Place> {
    if r == [] then []
    else
      var last := r[|r| - 1];
      if last.domain == id then DropDomain(r[..|r| - 1], id) else DropDomain(r[..|r| - 1], id) + [last]
  }

  predicate Distinct(r: seq<Place>) {
    forall i, j :: 0 <= i < j < |r| ==> r[i] != r[j]
  }

  lemma DistinctFront(r: seq<Place>)
    requires Distinct(r) && r != []
    ensures Distinct(r[..|r| - 1]) && r[|r| - 1] !in r[..|r| - 1] && forall q :: q in r <==> q in r[..|r| - 1] || q == r[|r| - 1]
  {
    assert r == r[..|r| - 1] + [r[|r| - 1]];
  }

  lemma {:induction false} DropIs(r: seq<Place>, p: Place)
    requires Distinct(r)
    ensures Distinct(Drop(r, p)) && forall q :: q in Drop(r, p) <==> q in r && q != p
  {
    if r != [] {
      var front, last := r[..|r| - 1], r[|r| - 1];
      DistinctFront(r);
      DropIs(front, p);
    }
  }

  lemma {:induction false} DropDomainIs(r: seq<Place>, id: nat)
    requires Distinct(r)
    ensures Distinct(DropDomain(r, id)) && forall q :: q in DropDomain(r, id) <==> q in r && q.domain != id
  {
    if r != [] {
      var front, last := r[..|r| - 1], r[|r| - 1];
      DistinctFront(r);
      DropDomainIs(front, id);
    }
  }

  /** Entries outside the list do not matter to its sum. */
  lemma {:induction false} SumSame(entries: map<Place, Entry>, other: map<Place, Entry>, r: seq<Place>, pick: Option<nat>)
    requires forall p :: p in r && Picks(pick, p) ==> (p in entries <==> p in other) && (p in entries ==> entries[p] == other[p])
    ensures Sum(entries, r, pick) == Sum(other, r, pick)
  {
    if r != [] {
      var front := r[..|r| - 1];
      assert forall p :: p in front ==> p in r;
      SumSame(entries, other, front, pick);
    }
  }

  lemma SumAppend(entries: map<Place, Entry>, r: seq<Place>, p: Place, pick: Option<nat>)
    ensures Sum(entries, r + [p], pick) ==
            Sum(entries, r, pick) + (if p in entries && Picks(pick, p) then entries[p].accounted else 0)
  {
    assert (r + [p])[..|r|] == r;
  }

  lemma {:induction false} DropSum(entries: map<Place, Entry>, r: seq<Place>, p: Place, pick: Option<nat>)
    requires Distinct(r) && p in entries
    ensures Sum(entries, Drop(r, p), pick) + (if p in r && Picks(pick, p) then entries[p].accounted else 0) == Sum(entries, r, pick)
  {
    hide Distinct;
    if r != [] {
      var front, last := r[..|r| - 1], r[|r| - 1];
      DistinctFront(r);
      DropSum(entries, front, p, pick);
      SumAppend(entries, Drop(front, p), last, pick);
    }
  }

  /** Forgetting an entry takes exactly its bytes off the total and its domain. */
  lemma EraseSum(entries: map<Place, Entry>, r: seq<Place>, p: Place, pick: Option<nat>)
    requires Distinct(r) && p in entries && p in r
    ensures Sum(entries - {p}, Drop(r, p), pick) + (if Picks(pick, p) then entries[p].accounted else 0) == Sum(entries, r, pick)
  {
    DropSum(entries, r, p, pick);
    DropIs(r, p);
    SumSame(entries - {p}, entries, Drop(r, p), pick);
  }

  lemma {:induction false} DropDomainSum(entries: map<Place, Entry>, r: seq<Place>, id: nat, pick: Option<nat>)
    ensures pick == None ==> Sum(entries, DropDomain(r, id), pick) + Sum(entries, r, Some(id)) == Sum(entries, r, pick)
    ensures pick == Some(id) ==> Sum(entries, DropDomain(r, id), pick) == 0
    ensures pick.Some? && pick != Some(id) ==> Sum(entries, DropDomain(r, id), pick) == Sum(entries, r, pick)
  {
    if r != [] {
      var front, last := r[..|r| - 1], r[|r| - 1];
      DropDomainSum(entries, front, id, pick);
      SumAppend(entries, DropDomain(front, id), last, pick);
    }
  }

  lemma AppendSum(entries: map<Place, Entry>, r: seq<Place>, p: Place, e: Entry, pick: Option<nat>)
    requires p !in r
    ensures Sum(entries[p := e], r + [p], pick) == Sum(entries, r, pick) + (if Picks(pick, p) then e.accounted else 0)
  {
    SumAppend(entries[p := e], r, p, pick);
    SumSame(entries[p := e], entries, r, pick);
  }

  lemma {:induction false} EmptyDomainSum(entries: map<Place, Entry>, r: seq<Place>, id: nat)
    requires forall p :: p in r ==> p.domain != id
    ensures Sum(entries, r, Some(id)) == 0
  {
    if r != [] {
      assert forall p :: p in r[..|r| - 1] ==> p in r;
      EmptyDomainSum(entries, r[..|r| - 1], id);
    }
  }

  function DomainAt(c: Cache, id: nat): Option<Domain> {
    if id == 0 then Some(c.anonymous) else if id in c.domains then Some(c.domains[id]) else None
  }

  ghost predicate DomainExact(c: Cache, id: nat) {
    DomainAt(c, id).Some? && DomainAt(c, id).value.retained == Sum(c.entries, c.recent, Some(id))
  }

  /** Recency in bijection with the entries, each in a known domain. */
  ghost predicate Listed(c: Cache) {
    && Distinct(c.recent) && 0 !in c.domains
    && (forall p :: p in c.entries <==> p in c.recent)
    && (forall p :: p in c.entries ==> p.domain == 0 || p.domain in c.domains)
  }

  ghost predicate AllDomainsExact(c: Cache) {
    forall id :: id == 0 || id in c.domains ==> DomainExact(c, id)
  }

  /** Bytes of domain metadata and of the continuation storage. */
  function Overhead(domains: set<nat>, domainBytes: nat, continuations: Option<nat>): nat {
    |domains| * domainBytes + (if continuations.Some? then continuations.value else 0)
  }

  lemma OverheadAdds(domains: set<nat>, id: nat, domainBytes: nat, continuations: Option<nat>)
    requires id !in domains
    ensures Overhead(domains + {id}, domainBytes, continuations) == Overhead(domains, domainBytes, continuations) + domainBytes
  {
    assert |domains + {id}| == |domains| + 1;
    Distribute(|domains|, 1, domainBytes);
  }

  ghost predicate TotalExact(c: Cache, domainBytes: nat) {
    c.retained == Sum(c.entries, c.recent, None) + Overhead(c.domains.Keys, domainBytes, c.continuations)
  }

  /** Every entry is listed once and every byte counted once. */
  ghost predicate Exact(c: Cache, domainBytes: nat) {
    Listed(c) && AllDomainsExact(c) && TotalExact(c, domainBytes)
  }

  /** Erase one entry. */
  function Erased(c: Cache, p: Place): Cache
    requires p in c.entries && DomainAt(c, p.domain).Some?
    requires c.entries[p].accounted <= DomainAt(c, p.domain).value.retained && c.entries[p].accounted <= c.retained
  {
    var d := DomainAt(c, p.domain).value;
    var smaller := d.(retained := d.retained - c.entries[p].accounted);
    c.(entries := c.entries - {p}, recent := Drop(c.recent, p),
       anonymous := if p.domain == 0 then smaller else c.anonymous,
       domains := if p.domain == 0 then c.domains else c.domains[p.domain := smaller],
       retained := c.retained - c.entries[p].accounted, revision := c.revision + 1)
  }

  /** What an entry takes is counted in its domain and in the total. */
  lemma ErasedBytes(c: Cache, p: Place, domainBytes: nat)
    requires Exact(c, domainBytes) && p in c.entries
    ensures DomainAt(c, p.domain).Some?
    ensures c.entries[p].accounted <= DomainAt(c, p.domain).value.retained && c.entries[p].accounted <= c.retained
  {
    hide Sum, Drop, Distinct, Overhead;
    assert DomainExact(c, p.domain);
    EraseSum(c.entries, c.recent, p, None);
    EraseSum(c.entries, c.recent, p, Some(p.domain));
  }

  lemma ErasedFields(c: Cache, p: Place)
    requires p in c.entries && DomainAt(c, p.domain).Some? && 0 !in c.domains
    requires c.entries[p].accounted <= DomainAt(c, p.domain).value.retained && c.entries[p].accounted <= c.retained
    ensures var d := Erased(c, p);
            && d.recent == Drop(c.recent, p) && d.entries == c.entries - {p} && d.continuations == c.continuations
            && d.retained == c.retained - c.entries[p].accounted && d.domains.Keys == c.domains.Keys
            && (forall id :: id != p.domain ==> DomainAt(d, id) == DomainAt(c, id))
            && DomainAt(d, p.domain).Some?
            && DomainAt(d, p.domain).value.retained == DomainAt(c, p.domain).value.retained - c.entries[p].accounted
  {
    hide Drop;
    assert Erased(c, p).domains.Keys == c.domains.Keys;
  }

  lemma ErasedListed(c: Cache, p: Place, domainBytes: nat)
    requires Exact(c, domainBytes) && p in c.entries
    requires DomainAt(c, p.domain).Some?
    requires c.entries[p].accounted <= DomainAt(c, p.domain).value.retained && c.entries[p].accounted <= c.retained
    ensures Listed(Erased(c, p)) && TotalExact(Erased(c, p), domainBytes)
  {
    hide Sum, Drop, Distinct, Erased, DomainAt, AllDomainsExact, Overhead;
    DropIs(c.recent, p);
    EraseSum(c.entries, c.recent, p, None);
    ErasedFields(c, p);
  }

  lemma ErasedDomain(c: Cache, p: Place, id: nat, domainBytes: nat)
    requires Exact(c, domainBytes) && p in c.entries && (id == 0 || id in c.domains)
    requires DomainAt(c, p.domain).Some?
    requires c.entries[p].accounted <= DomainAt(c, p.domain).value.retained && c.entries[p].accounted <= c.retained
    ensures DomainExact(Erased(c, p), id)
  {
    hide Sum, Drop, Distinct, Erased, TotalExact;
    assert DomainExact(c, id);
    EraseSum(c.entries, c.recent, p, Some(id));
    ErasedFields(c, p);
  }

  lemma ErasedExact(c: Cache, p: Place, domainBytes: nat)
    requires Exact(c, domainBytes) && p in c.entries
    ensures DomainAt(c, p.domain).Some?
    ensures c.entries[p].accounted <= DomainAt(c, p.domain).value.retained && c.entries[p].accounted <= c.retained
    ensures Exact(Erased(c, p), domainBytes)
  {
    ErasedBytes(c, p, domainBytes);
    ErasedListed(c, p, domainBytes);
    ErasedFields(c, p) by {
      hide Sum, Drop, Distinct;
    }
    hide Sum, Drop, Distinct, Erased, DomainAt, TotalExact, DomainExact;
    forall id | id == 0 || id in c.domains
      ensures DomainExact(Erased(c, p), id)
    {
      ErasedDomain(c, p, id, domainBytes);
    }
    hide Listed;
  }

  /** Forget every entry of a domain and its generation. */
  function Invalidated(c: Cache, id: nat): Cache
    requires DomainAt(c, id).Some? && DomainAt(c, id).value.retained <= c.retained
  {
    var empty := !exists p :: p in c.entries && p.domain == id;
    c.(entries := map p | p in c.entries && p.domain != id :: c.entries[p], recent := DropDomain(c.recent, id),
       anonymous := if id == 0 then Domain(None, 0) else c.anonymous,
       domains := if id == 0 then c.domains else c.domains[id := Domain(None, 0)],
       retained := c.retained - DomainAt(c, id).value.retained,
       revision := if empty then c.revision else c.revision + 1)
  }

  lemma InvalidatedSums(c: Cache, id: nat, pick: Option<nat>)
    requires Distinct(c.recent) && DomainAt(c, id).Some? && DomainAt(c, id).value.retained <= c.retained
    ensures var d := Invalidated(c, id);
            Sum(d.entries, d.recent, pick) == Sum(c.entries, DropDomain(c.recent, id), pick)
  {
    var d := Invalidated(c, id);
    DropDomainIs(c.recent, id);
    SumSame(d.entries, c.entries, d.recent, pick);
  }

  lemma InvalidatedFields(c: Cache, id: nat)
    requires DomainAt(c, id).Some? && DomainAt(c, id).value.retained <= c.retained && 0 !in c.domains
    ensures var d := Invalidated(c, id);
            && d.recent == DropDomain(c.recent, id) && d.continuations == c.continuations
            && d.retained == c.retained - DomainAt(c, id).value.retained && d.domains.Keys == c.domains.Keys
            && (forall p :: p in d.entries <==> p in c.entries && p.domain != id)
            && (forall p :: p in d.entries ==> d.entries[p] == c.entries[p])
            && DomainAt(d, id) == Some(Domain(None, 0))
            && (forall other :: other != id ==> DomainAt(d, other) == DomainAt(c, other))
  {
    assert Invalidated(c, id).domains.Keys == c.domains.Keys;
  }

  lemma InvalidatedDomain(c: Cache, id: nat, other: nat, domainBytes: nat)
    requires Exact(c, domainBytes) && DomainAt(c, id).Some? && DomainAt(c, id).value.retained <= c.retained
    requires other == 0 || other in c.domains
    ensures DomainExact(Invalidated(c, id), other)
  {
    hide Invalidated;
    assert DomainExact(c, other);
    InvalidatedFields(c, id);
    InvalidatedSums(c, id, Some(other));
    DropDomainSum(c.entries, c.recent, id, Some(other));
  }

  lemma InvalidatedListed(c: Cache, id: nat)
    requires Listed(c) && DomainAt(c, id).Some? && DomainAt(c, id).value.retained <= c.retained
    ensures Listed(Invalidated(c, id))
  {
    hide Invalidated, DropDomain, Distinct, DomainAt;
    DropDomainIs(c.recent, id);
    InvalidatedFields(c, id);
  }

  lemma InvalidatedTotal(c: Cache, id: nat, domainBytes: nat)
    requires Exact(c, domainBytes) && DomainAt(c, id).Some? && DomainAt(c, id).value.retained <= c.retained
    ensures TotalExact(Invalidated(c, id), domainBytes)
  {
    assert DomainExact(c, id);
    DropDomainSum(c.entries, c.recent, id, None);
    InvalidatedSums(c, id, None);
    InvalidatedFields(c, id);
    hide Sum, DropDomain, Invalidated, Listed, Overhead;
  }

  lemma InvalidatedExact(c: Cache, id: nat, domainBytes: nat)
    requires Exact(c, domainBytes) && DomainAt(c, id).Some?
    ensures DomainAt(c, id).value.retained <= c.retained
    ensures Exact(Invalidated(c, id), domainBytes)
  {
    assert DomainExact(c, id);
    DropDomainSum(c.entries, c.recent, id, None);
    InvalidatedListed(c, id);
    InvalidatedTotal(c, id, domainBytes);
    InvalidatedFields(c, id);
    hide Sum, DropDomain, Invalidated, Listed, DomainAt, TotalExact, DomainExact;
    forall other | other == 0 || other in c.domains
      ensures DomainExact(Invalidated(c, id), other)
    {
      InvalidatedDomain(c, id, other, domainBytes);
    }
  }

  /** Drop the metadata of a domain without entries. */
  function Reclaimed(c: Cache, id: nat, domainBytes: nat): Cache
    requires id in c.domains && domainBytes <= c.retained
  {
    c.(domains := c.domains - {id}, retained := c.retained - domainBytes)
  }

  lemma ReclaimedExact(c: Cache, id: nat, domainBytes: nat)
    requires Exact(c, domainBytes) && id in c.domains && forall p :: p in c.entries ==> p.domain != id
    ensures domainBytes <= c.retained && Exact(Reclaimed(c, id, domainBytes), domainBytes)
  {
    hide Sum, Distinct, Overhead;
    var keys := c.domains.Keys;
    assert keys - {id} + {id} == keys;
    OverheadAdds(keys - {id}, id, domainBytes, c.continuations);
    var d := Reclaimed(c, id, domainBytes);
    assert d.domains.Keys == keys - {id};
    forall other | other == 0 || other in d.domains
      ensures DomainExact(d, other)
    {
      assert DomainExact(c, other);
    }
  }

  /** A new domain costs its metadata. */
  lemma OpenedExact(c: Cache, id: nat, generation: Option<nat>, domainBytes: nat)
    requires Exact(c, domainBytes) && id != 0 && id !in c.domains
    ensures Exact(c.(domains := c.domains[id := Domain(generation, 0)], retained := c.retained + domainBytes), domainBytes)
  {
    hide Overhead;
    var d := c.(domains := c.domains[id := Domain(generation, 0)], retained := c.retained + domainBytes);
    assert d.domains.Keys == c.domains.Keys + {id};
    OverheadAdds(c.domains.Keys, id, domainBytes, c.continuations);
    EmptyDomainSum(c.entries, c.recent, id);
    forall other | other == 0 || other in d.domains
      ensures DomainExact(d, other)
    {
      if other != id {
        assert DomainExact(c, other);
      }
    }
  }

  function Installed(c: Cache, p: Place, e: Entry): Cache
    requires DomainAt(c, p.domain).Some?
  {
    var d := DomainAt(c, p.domain).value;
    var larger := d.(retained := d.retained + e.accounted);
    c.(entries := c.entries[p := e], recent := c.recent + [p],
       anonymous := if p.domain == 0 then larger else c.anonymous,
       domains := if p.domain == 0 then c.domains else c.domains[p.domain := larger],
       retained := c.retained + e.accounted, revision := c.revision + 1)
  }

  lemma InstalledExact(c: Cache, p: Place, e: Entry, domainBytes: nat)
    requires Exact(c, domainBytes) && p !in c.entries && DomainAt(c, p.domain).Some?
    ensures Exact(Installed(c, p, e), domainBytes)
  {
    hide Sum, Overhead;
    AppendSum(c.entries, c.recent, p, e, None);
    var d := Installed(c, p, e);
    assert d.domains.Keys == c.domains.Keys;
    forall other | other == 0 || other in d.domains
      ensures DomainExact(d, other)
    {
      assert DomainExact(c, other);
      AppendSum(c.entries, c.recent, p, e, Some(other));
    }
  }

  /** A hit moves its place to the recent end. */
  lemma TouchSum(entries: map<Place, Entry>, r: seq<Place>, p: Place, pick: Option<nat>)
    requires Distinct(r) && p in r && p in entries
    ensures Sum(entries, Drop(r, p) + [p], pick) == Sum(entries, r, pick)
  {
    hide Sum, Drop;
    DropSum(entries, r, p, pick);
    SumAppend(entries, Drop(r, p), p, pick);
  }

  lemma TouchedExact(c: Cache, p: Place, domainBytes: nat)
    requires Exact(c, domainBytes) && p in c.entries
    ensures Exact(c.(recent := Drop(c.recent, p) + [p]), domainBytes)
  {
    DropIs(c.recent, p);
    TouchSum(c.entries, c.recent, p, None);
    var d := c.(recent := Drop(c.recent, p) + [p]);
    forall other | other == 0 || other in d.domains
      ensures DomainExact(d, other)
    {
      assert DomainExact(c, other);
      TouchSum(c.entries, c.recent, p, Some(other));
    }
  }

  predicate Overlaps(begin: int, end: int, first: int, last: int) {
    begin < last && first < end
  }

  /** The last address a range of size bytes from address reaches, clipped. */
  function RangeEnd(address: Word, size: nat): int {
    if size < ADDRESS_LIMIT - address then address + size else ADDRESS_LIMIT
  }

  /** The test that decides whether writing a range touches an entry. */
  predicate Touches(address: Word, size: nat, pc: Word, dependency: Region) {
    var begin, end := address, RangeEnd(address, size);
    var fetchEnd := pc + 4;
    || Overlaps(begin, end, dependency.begin, dependency.end)
    || Overlaps(begin, end, pc, if fetchEnd < ADDRESS_LIMIT then fetchEnd else ADDRESS_LIMIT)
    || (fetchEnd > ADDRESS_LIMIT && Overlaps(begin, end, 0, fetchEnd - ADDRESS_LIMIT))
  }

  /** Address of byte k of the instruction fetched at pc. */
  function FetchByte(pc: Word, k: nat): Word {
    Wrap(pc + k)
  }

  /** One written byte is depended upon: it lies in the dependency, or it is one
      of the four fetched bytes, whose addresses wrap around. */
  ghost predicate ByteTouched(a: int, pc: Word, dependency: Region) {
    dependency.begin <= a < dependency.end || exists k: nat :: k < 4 && FetchByte(pc, k) == a
  }

  /** The interval test is exact: an entry is touched if and only if some written
      byte is depended upon. */
  lemma TouchesExact(address: Word, size: nat, pc: Word, dependency: Region)
    requires size > 0 && dependency.begin < dependency.end
    ensures Touches(address, size, pc, dependency) <==>
            exists a: int :: address <= a < RangeEnd(address, size) && ByteTouched(a, pc, dependency)
  {
    var begin: int, end: int := address, RangeEnd(address, size);
    if Overlaps(begin, end, dependency.begin, dependency.end) {
      var a := if begin >= dependency.begin then begin else dependency.begin;
      assert ByteTouched(a, pc, dependency);
    } else if Overlaps(begin, end, pc, if pc + 4 < ADDRESS_LIMIT then pc + 4 else ADDRESS_LIMIT) {
      var a := if begin >= pc then begin else pc;
      assert FetchByte(pc, a - pc) == a;
      assert ByteTouched(a, pc, dependency);
    } else if pc + 4 > ADDRESS_LIMIT && Overlaps(begin, end, 0, pc + 4 - ADDRESS_LIMIT) {
      assert FetchByte(pc, begin + ADDRESS_LIMIT - pc) == begin;
      assert ByteTouched(begin, pc, dependency);
    }
  }
}
