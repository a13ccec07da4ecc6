/** The byte-budgeted code cache: domains of entries, an LRU recency list, range
    invalidation and eviction, over the accounting of CacheAccounting. */
module CodeCache {
  import opened Words
  import opened Wrappers
  import opened Regions
  import opened CacheAccounting

  const MINIMUM_BYTES: nat := 0x4_0000
  const CONTINUATION_RESERVE: nat := 16384

  /** A code identity and its epoch; no identity means the anonymous domain. */
  datatype Binding = Binding(identity: Option<nat>, generation: Option<nat>) {
    function Id(): nat {
      if identity.Some? then identity.value else 0
    }

    predicate Valid() {
      identity.Some? ==> identity.value != 0
    }
  }

  predicate HasEntries(entries: map<Place, Entry>, id: nat) {
    exists p :: p in entries && p.domain == id
  }

  ghost predicate SuffixOf(s: seq<Place>, r: seq<Place>) {
    |s| <= |r| && s == r[|r| - |s|..]
  }

  /** No domain is kept without entries. */
  ghost predicate Populated(domains: map<nat, Domain>, entries: map<Place, Entry>) {
    forall id :: id in domains ==> HasEntries(entries, id)
  }

  predicate Subset(small: map<Place, Entry>, large: map<Place, Entry>) {
    forall p :: p in small ==> p in large && small[p] == large[p]
  }

  /** The entries a range write leaves, when those in rest are yet to be tested. */
  ghost predicate Surviving(now: map<Place, Entry>, before: map<Place, Entry>, rest: set<Place>, address: Word, size: nat) {
    && Subset(now, before)
    && forall p :: p in before ==> (p in now <==> p in rest || !Touches(address, size, p.key.pc, before[p].dependency))
  }

  lemma EverySurvives(entries: map<Place, Entry>, address: Word, size: nat)
    ensures Surviving(entries, entries, entries.Keys, address, size)
  {
    hide Touches;
  }

  lemma SurvivingStep(now: map<Place, Entry>, before: map<Place, Entry>, rest: set<Place>, p: Place, address: Word, size: nat)
    requires Surviving(now, before, rest, address, size) && p in rest && rest <= before.Keys
    ensures p in now && now[p] == before[p]
    ensures Surviving(if Touches(address, size, p.key.pc, before[p].dependency) then now - {p} else now,
                      before, rest - {p}, address, size)
  {
    hide Touches;
  }

  lemma SubsetMinus(m: map<Place, Entry>, p: Place)
    ensures Subset(m - {p}, m)
  {
  }

  lemma SubsetPut(small: map<Place, Entry>, large: map<Place, Entry>, p: Place, e: Entry)
    requires Subset(small, large - {p})
    ensures p !in small && Subset(small[p := e] - {p}, large)
  {
  }

  lemma SuffixTail(s: seq<Place>, r: seq<Place>)
    requires SuffixOf(s, r) && s != []
    ensures SuffixOf(s[1..], r)
  {
  }

  lemma SuffixHead(s: seq<Place>, r: seq<Place>)
    requires SuffixOf(s, r) && s != []
    ensures |s| <= |r| && r[|r| - |s|] == s[0]
  {
  }

  lemma SuffixSelf(r: seq<Place>)
    ensures SuffixOf(r, r)
  {
  }

  lemma {:induction false} DropOldest(r: seq<Place>)
    requires Distinct(r) && r != []
    ensures Drop(r, r[0]) == r[1..]
  {
    var front, last := r[..|r| - 1], r[|r| - 1];
    if |r| > 1 {
      DropOldest(front);
      assert r[1..] == front[1..] + [last];
    } else {
      assert front == [];
    }
  }

  lemma OldestPresent(c: Cache, domainBytes: nat)
    requires Exact(c, domainBytes) && c.recent != []
    ensures c.recent[0] in c.entries && Drop(c.recent, c.recent[0]) == c.recent[1..]
    ensures 0 !in c.domains && (c.recent[0].domain == 0 || c.recent[0].domain in c.domains)
  {
    assert c.recent[0] in c.recent;
    DropOldest(c.recent);
  }

  class CodeCache {
    const budget: nat
    const domainBytes: nat
    const entryBytes: nat
    var entries: map<Place, Entry>
    var recent: seq<Place>
    var anonymous: Domain
    var domains: map<nat, Domain>
    var retained: nat
    var continuations: Option<nat>
    var revision: nat
    var cookie: nat

    /** A budget below the minimum is refused. */
    constructor (budget: nat, domainBytes: nat, entryBytes: nat)
      requires budget >= MINIMUM_BYTES
      ensures this.budget == budget && this.domainBytes == domainBytes && this.entryBytes == entryBytes
      ensures Valid() && entries == map[] && retained == 0
    {
      this.budget, this.domainBytes, this.entryBytes := budget, domainBytes, entryBytes;
      entries, recent, anonymous, domains := map[], [], Domain(None, 0), map[];
      retained, continuations, revision, cookie := 0, None, 1, 0;
      new;
      assert domains.Keys == {};
    }

    function Now(): Cache
      reads this
    {
      Cache(entries, recent, anonymous, domains, retained, continuations, revision)
    }

    /** Every byte is counted and the total is within the budget. */
    ghost predicate Valid()
      reads this
    {
      Exact(Now(), domainBytes) && retained <= budget
    }

    method EraseEntry(p: Place)
      requires Exact(Now(), domainBytes) && p in entries
      modifies `entries, `recent, `anonymous, `domains, `retained, `revision
      ensures Exact(Now(), domainBytes) && revision == old(revision) + 1
      ensures retained == old(retained) - old(entries)[p].accounted
      ensures entries == old(entries) - {p} && recent == Drop(old(recent), p) && domains.Keys == old(domains).Keys
    {
      hide Exact, Drop;
      ErasedExact(Now(), p, domainBytes);
      PresentDomain(Now(), p, domainBytes);
      Unrecord(p);
    }

    method Unrecord(p: Place)
      requires p in entries && DomainAt(Now(), p.domain).Some?
      requires entries[p].accounted <= DomainAt(Now(), p.domain).value.retained && entries[p].accounted <= retained
      modifies `entries, `recent, `anonymous, `domains, `retained, `revision
      ensures Now() == Erased(old(Now()), p) && domains.Keys == old(domains).Keys
    {
      hide Drop;
      revision := revision + 1;
      var bytes := entries[p].accounted;
      if p.domain == 0 {
        anonymous := anonymous.(retained := anonymous.retained - bytes);
      } else {
        domains := domains[p.domain := domains[p.domain].(retained := domains[p.domain].retained - bytes)];
      }
      retained := retained - bytes;
      recent := Drop(recent, p);
      entries := entries - {p};
    }

    /** Forget a whole domain's entries and its epoch. */
    method InvalidateDomain(id: nat)
      requires Exact(Now(), domainBytes) && DomainAt(Now(), id).Some?
      modifies `entries, `recent, `anonymous, `domains, `retained, `revision
      ensures DomainAt(old(Now()), id).value.retained <= old(retained)
      ensures Now() == Invalidated(old(Now()), id) && Exact(Now(), domainBytes)
    {
      hide Exact, DropDomain;
      InvalidatedExact(Now(), id, domainBytes);
      WipeDomain(id);
    }

    method WipeDomain(id: nat)
      requires DomainAt(Now(), id).Some? && DomainAt(Now(), id).value.retained <= retained
      modifies `entries, `recent, `anonymous, `domains, `retained, `revision
      ensures Now() == Invalidated(old(Now()), id)
    {
      hide DropDomain;
      var bytes := if id == 0 then anonymous.retained else domains[id].retained;
      if exists p :: p in entries && p.domain == id {
        revision := revision + 1;
      }
      Unlist(id);
      entries := map p | p in entries && p.domain != id :: entries[p];
      retained := retained - bytes;
      if id == 0 {
        anonymous := Domain(None, 0);
      } else {
        domains := domains[id := Domain(None, 0)];
      }
    }

    method Unlist(id: nat)
      modifies `recent
      ensures recent == DropDomain(old(recent), id)
    {
      var i: nat, kept: seq<Place> := 0, [];
      while i < |recent|
        invariant i <= |recent| && recent == old(recent) && kept == DropDomain(recent[..i], id)
      {
        assert recent[..i + 1][..i] == recent[..i];
        if recent[i].domain != id {
          kept := kept + [recent[i]];
        }
        i := i + 1;
      }
      assert recent[..|recent|] == recent;
      recent := kept;
    }

    method Clear()
      modifies this
      ensures Valid() && retained == 0 && entries == map[] && recent == [] && domains == map[] && continuations == None
      ensures revision == old(revision) + 1 && cookie == 0
    {
      revision := revision + 1;
      continuations, cookie := None, 0;
      recent, entries, anonymous, domains := [], map[], Domain(None, 0), map[];
      retained := 0;
      assert domains.Keys == {};
    }

    /** Anonymous translations do not survive into another run. */
    method BeginRun()
      requires Valid()
      modifies this
      ensures Valid() && domains == old(domains) && !HasEntries(entries, 0)
      ensures forall p :: p in entries <==> p in old(entries) && p.domain != 0
      ensures forall p :: p in entries ==> entries[p] == old(entries)[p]
    {
      InvalidateDomain(0);
    }

    /** Remove exactly the entries some written byte touches, then every domain
        that is left without entries. */
    method InvalidateRange(address: Word, size: nat)
      requires Valid()
      modifies this
      ensures Valid() && continuations == old(continuations)
      ensures size == 0 ==> Now() == old(Now())
      ensures size > 0 ==> Surviving(entries, old(entries), {}, address, size)
      ensures size > 0 ==> forall id :: id in domains <==> id in old(domains) && HasEntries(entries, id)
    {
      hide Touches, Exact, Drop, DomainAt, Surviving, HasEntries;
      if size == 0 {
        return;
      }
      var rest := entries.Keys;
      EverySurvives(entries, address, size);
      while rest != {}
        invariant rest <= old(entries).Keys && Surviving(entries, old(entries), rest, address, size)
        invariant Exact(Now(), domainBytes) && retained <= budget && continuations == old(continuations)
        invariant domains.Keys == old(domains).Keys
        decreases |rest|
      {
        var p :| p in rest;
        SurvivingStep(entries, old(entries), rest, p, address, size);
        if Touches(address, size, p.key.pc, entries[p].dependency) {
          EraseEntry(p);
        }
        rest := rest - {p};
      }
      ReclaimDomains();
    }

    /** Reclaim the metadata of every domain without entries. */
    method ReclaimDomains()
      requires Exact(Now(), domainBytes)
      modifies `domains, `retained
      ensures Exact(Now(), domainBytes) && retained <= old(retained)
      ensures forall id :: id in domains <==> id in old(domains) && HasEntries(entries, id)
      ensures forall id :: id in domains ==> domains[id] == old(domains)[id]
    {
      hide Exact, HasEntries;
      var rest := domains.Keys;
      while rest != {}
        invariant rest <= old(domains).Keys && Exact(Now(), domainBytes) && retained <= old(retained)
        invariant forall id :: id in domains <==> id in old(domains) && (id in rest || HasEntries(entries, id))
        invariant forall id :: id in domains ==> domains[id] == old(domains)[id]
        decreases |rest|
      {
        var id :| id in rest;
        ReclaimDomain(id);
        rest := rest - {id};
      }
    }

    /** The domain a binding names, if it exists. */
    predicate Found(b: Binding)
      reads this
    {
      b.identity.None? || b.identity.value in domains
    }

    /** The domain exists under another epoch. */
    predicate Stale(b: Binding)
      reads this
    {
      Found(b) && (if b.identity.None? then anonymous else domains[b.identity.value]).generation != b.generation
    }

    function Needed(b: Binding, accounted: nat): nat
      reads this
    {
      accounted + (if b.identity.Some? && !Found(b) then domainBytes else 0)
    }

    /** With the entry of bytes at p still here, and its domain, the new one would
        not fit. */
    ghost predicate Necessary(p: Place, bytes: nat, b: Binding, accounted: nat)
      reads this
    {
      retained + bytes + (if p.domain == 0 || p.domain in domains then 0 else domainBytes) +
      accounted + (if b.identity.Some? && !Found(b) && b.identity.value != p.domain then domainBytes else 0) > budget
    }

    /** Make room: continuation storage yields first, then empty domains, then the
        oldest entries in order, no more of them than must go. The loop never finds
        the cache empty and still too full, so the accounting error of the source is
        unreachable. */
    method Trim(b: Binding, accounted: nat)
      requires Valid() && b.Valid()
      requires accounted + (if b.identity.Some? then domainBytes else 0) <= budget
      modifies `entries, `recent, `anonymous, `domains, `retained, `continuations, `revision
      ensures Exact(Now(), domainBytes) && retained + Needed(b, accounted) <= budget
      ensures SuffixOf(recent, old(recent)) && Subset(entries, old(entries))
      ensures |recent| < |old(recent)| ==> Populated(domains, entries)
      ensures |recent| < |old(recent)| ==>
                var last := old(recent)[|old(recent)| - |recent| - 1];
                last in old(entries) && Necessary(last, old(entries)[last].accounted, b, accounted)
      ensures old(retained + Needed(b, accounted)) <= budget && old(continuations) == continuations ==> Now() == old(Now())
    {
      hide Exact, SuffixOf, Drop, Populated;
      var bound := accounted + (if b.identity.Some? then domainBytes else 0);
      SuffixSelf(recent);
      YieldContinuations(bound);
      if retained + Needed(b, accounted) <= budget {
        return;
      }
      ReclaimDomains();
      AllPopulated(domains, entries);
      EvictUntil(b, accounted);
    }

    /** Evict the oldest entries in order until the new one fits. */
    method EvictUntil(b: Binding, accounted: nat)
      requires Exact(Now(), domainBytes) && b.Valid() && Populated(domains, entries)
      requires accounted + (if b.identity.Some? then domainBytes else 0) +
               (if continuations.Some? then continuations.value else 0) <= budget
      modifies `entries, `recent, `anonymous, `domains, `retained, `revision
      ensures Exact(Now(), domainBytes) && retained + Needed(b, accounted) <= budget && Populated(domains, entries)
      ensures SuffixOf(recent, old(recent)) && Subset(entries, old(entries))
      ensures |recent| < |old(recent)| ==>
                var last := old(recent)[|old(recent)| - |recent| - 1];
                last in old(entries) && Necessary(last, old(entries)[last].accounted, b, accounted)
    {
      hide Exact, SuffixOf, Drop, Populated;
      SuffixSelf(recent);
      while retained + Needed(b, accounted) > budget
        invariant Exact(Now(), domainBytes) && SuffixOf(recent, old(recent)) && Subset(entries, old(entries))
        invariant Populated(domains, entries) && |recent| <= |old(recent)|
        invariant |recent| < |old(recent)| ==>
                    var last := old(recent)[|old(recent)| - |recent| - 1];
                    last in old(entries) && Necessary(last, old(entries)[last].accounted, b, accounted)
        decreases |recent|
      {
        if recent == [] {
          EmptyTotal(Now(), domainBytes);
          assert false;
        }
        SuffixTail(recent, old(recent));
        SuffixHead(recent, old(recent));
        OldestPresent(Now(), domainBytes);
        ghost var oldest := recent[0];
        assert entries[oldest] == old(entries)[oldest];
        EvictOldest();
      }
    }

    method YieldContinuations(bound: nat)
      requires Valid()
      modifies `retained, `continuations, `revision
      ensures Valid() && (continuations.Some? ==> bound + continuations.value <= budget)
      ensures continuations == old(continuations) ==> Now() == old(Now())
      ensures continuations.None? || continuations == old(continuations)
    {
      if continuations.Some? && bound + continuations.value > budget {
        DropContinuations(Now(), revision + 1, domainBytes);
        hide Exact;
        retained := retained - continuations.value;
        continuations := None;
        revision := revision + 1;
      }
    }

    /** Evict the oldest entry, and its domain when that leaves it empty. */
    method EvictOldest()
      requires Exact(Now(), domainBytes) && recent != []
      requires Populated(domains, entries)
      modifies `entries, `recent, `anonymous, `domains, `retained, `revision
      ensures Exact(Now(), domainBytes) && recent == old(recent)[1..] && Subset(entries, old(entries))
      ensures Populated(domains, entries)
      ensures old(recent)[0] in old(entries)
      ensures var p := old(recent)[0];
              && domains.Keys == (if p.domain == 0 || HasEntries(entries, p.domain) then old(domains).Keys
                                  else old(domains).Keys - {p.domain})
              && (p.domain == 0 || p.domain in old(domains))
              && retained + old(entries)[p].accounted +
                 (if p.domain == 0 || p.domain in domains then 0 else domainBytes) == old(retained)
    {
      hide Exact, Drop, DomainAt, HasEntries, Subset, Populated;
      OldestPresent(Now(), domainBytes);
      var p := recent[0];
      SubsetMinus(entries, p);
      EraseEntry(p);
      ReclaimEmptied(p);
      EvictPopulated(old(domains), domains, old(entries), p);
    }

    method ReclaimEmptied(p: Place)
      requires Exact(Now(), domainBytes) && (p.domain == 0 || p.domain in domains)
      modifies `domains, `retained
      ensures Exact(Now(), domainBytes)
      ensures domains.Keys == if p.domain == 0 || HasEntries(entries, p.domain) then old(domains).Keys
                              else old(domains).Keys - {p.domain}
      ensures retained + (if p.domain == 0 || p.domain in domains then 0 else domainBytes) == old(retained)
    {
      hide Exact, HasEntries;
      if p.domain != 0 {
        ReclaimDomain(p.domain);
      }
    }

    method ReclaimDomain(id: nat)
      requires Exact(Now(), domainBytes) && id in domains
      modifies `domains, `retained
      ensures Exact(Now(), domainBytes) && retained + (if id in domains then 0 else domainBytes) == old(retained)
      ensures domains == if HasEntries(entries, id) then old(domains) else old(domains) - {id}
    {
      hide Exact;
      if !exists p :: p in entries && p.domain == id {
        ReclaimedExact(Now(), id, domainBytes);
        retained := retained - domainBytes;
        domains := domains - {id};
      }
    }

    /** The domain a binding uses from now on, under its epoch. */
    method Obtain(b: Binding)
      requires Exact(Now(), domainBytes) && b.Valid()
      modifies `anonymous, `domains, `retained
      ensures Exact(Now(), domainBytes) && retained == old(retained + Needed(b, 0))
      ensures DomainAt(Now(), b.Id()).Some? && DomainAt(Now(), b.Id()).value.generation == b.generation
    {
      if b.identity.None? {
        anonymous := anonymous.(generation := b.generation);
        RenewedExact(old(Now()), 0, b.generation, domainBytes);
      } else if b.identity.value in domains {
        domains := domains[b.identity.value := domains[b.identity.value].(generation := b.generation)];
        RenewedExact(old(Now()), b.identity.value, b.generation, domainBytes);
      } else {
        OpenedExact(Now(), b.identity.value, b.generation, domainBytes);
        domains := domains[b.identity.value := Domain(b.generation, 0)];
        retained := retained + domainBytes;
      }
    }

    /** Install a translation, replacing one under the same key. Refused when it
        alone exceeds the budget; otherwise the cache ends within budget with the
        new entry most recent and at most the oldest others evicted. */
    method Install(b: Binding, key: Key, capacity: nat, viewBytes: nat, dependency: Region) returns (installed: bool)
      requires Valid() && b.Valid()
      requires entryBytes + viewBytes + domainBytes <= budget
      modifies this
      ensures Valid()
      ensures installed <==> capacity <= budget - (entryBytes + viewBytes + (if b.identity.Some? then domainBytes else 0))
      ensures !installed ==> Now() == old(Now())
      ensures installed ==>
                var p := Place(b.Id(), key);
                && p in entries && entries[p] == Entry(capacity + entryBytes + viewBytes, dependency)
                && |recent| > 0 && recent[|recent| - 1] == p
                && SuffixOf(recent[..|recent| - 1], Drop(old(recent), p))
                && Subset(entries - {p}, old(entries))
    {
      hide Exact, DomainAt, Drop, SuffixOf, Subset;
      var overhead := entryBytes + viewBytes + (if b.identity.Some? then domainBytes else 0);
      if capacity > budget - overhead {
        return false;
      }
      var accounted := capacity + entryBytes + viewBytes;
      var p := Place(b.Id(), key);
      Forget(p);
      Trim(b, accounted);
      SubsetPut(entries, old(entries), p, Entry(accounted, dependency));
      Obtain(b);
      ghost var before := recent;
      Insert(p, Entry(accounted, dependency));
      assert recent[..|recent| - 1] == before;
      return true;
    }

    method Forget(p: Place)
      requires Valid()
      modifies `entries, `recent, `anonymous, `domains, `retained, `revision
      ensures Valid() && p !in entries && recent == Drop(old(recent), p) && entries == old(entries) - {p}
    {
      hide Exact, Drop, DomainAt;
      DropAbsent(Now(), p, domainBytes);
      if p in entries {
        EraseEntry(p);
      }
    }

    method Insert(p: Place, e: Entry)
      requires Exact(Now(), domainBytes) && DomainAt(Now(), p.domain).Some? && p !in entries
      modifies `entries, `recent, `anonymous, `domains, `retained, `revision
      ensures Exact(Now(), domainBytes) && Now() == Installed(old(Now()), p, e)
      ensures retained == old(retained) + e.accounted && entries == old(entries)[p := e] && recent == old(recent) + [p]
    {
      hide Exact;
      InstalledExact(Now(), p, e, domainBytes);
      Record(p, e);
    }

    method Record(p: Place, e: Entry)
      requires DomainAt(Now(), p.domain).Some?
      modifies `entries, `recent, `anonymous, `domains, `retained, `revision
      ensures Now() == Installed(old(Now()), p, e)
      ensures retained == old(retained) + e.accounted && entries == old(entries)[p := e] && recent == old(recent) + [p]
    {
      entries := entries[p := e];
      recent := recent + [p];
      revision := revision + 1;
      if p.domain == 0 {
        anonymous := anonymous.(retained := anonymous.retained + e.accounted);
      } else {
        domains := domains[p.domain := domains[p.domain].(retained := domains[p.domain].retained + e.accounted)];
      }
      retained := retained + e.accounted;
    }

    /** A lookup that finds its entry makes it the most recent. */
    method Hit(p: Place)
      requires Valid() && p in entries
      modifies `recent
      ensures Valid() && recent == Drop(old(recent), p) + [p]
    {
      TouchedExact(Now(), p, domainBytes);
      recent := Drop(recent, p) + [p];
    }

    /** Losing the epoch revokes a domain; a new epoch empties it. */
    method Bind(identity: Option<nat>, generation: Option<nat>) returns (b: Binding)
      requires Valid() && Binding(identity, generation).Valid()
      modifies this
      ensures Valid() && b.Valid() && b.generation == generation
      ensures b.identity == if generation.None? then None else identity
      ensures generation.None? && identity.Some? ==> identity.value !in domains
      ensures generation.None? ==> !HasEntries(entries, 0)
      ensures generation.Some? && old(Stale(Binding(identity, generation))) ==> !HasEntries(entries, b.Id())
      ensures forall p :: p in entries ==> p in old(entries) && entries[p] == old(entries)[p]
      ensures forall p :: p in old(entries) && p !in entries ==>
                p.domain == Binding(identity, generation).Id() || (generation.None? && p.domain == 0)
    {
      hide Exact;
      b := Binding(identity, generation);
      if generation.None? {
        if identity.Some? && identity.value in domains {
          InvalidateDomain(identity.value);
          ReclaimedExact(Now(), identity.value, domainBytes);
          domains := domains - {identity.value};
          retained := retained - domainBytes;
        }
        b := b.(identity := None);
        InvalidateDomain(0);
      } else if Stale(b) {
        InvalidateDomain(b.Id());
      }
    }

    /** Continuation storage is optional: it neither evicts nor exceeds the budget. */
    method ReserveContinuations(bytes: nat) returns (reserved: bool)
      requires Valid() && continuations.None?
      modifies `retained, `continuations
      ensures Valid() && reserved == (budget - old(retained) >= CONTINUATION_RESERVE && bytes <= budget - old(retained))
      ensures continuations == if reserved then Some(bytes) else None
      ensures retained == old(retained) + if reserved then bytes else 0
    {
      if budget - retained < CONTINUATION_RESERVE || bytes > budget - retained {
        return false;
      }
      retained := retained + bytes;
      continuations := Some(bytes);
      ReservedExact(old(Now()), bytes, domainBytes);
      return true;
    }
  }

  lemma DropContinuations(c: Cache, revision: nat, domainBytes: nat)
    requires Exact(c, domainBytes) && c.continuations.Some?
    ensures c.continuations.value <= c.retained
    ensures Exact(c.(retained := c.retained - c.continuations.value, continuations := None, revision := revision), domainBytes)
  {
    var d := c.(retained := c.retained - c.continuations.value, continuations := None, revision := revision);
    forall id | id == 0 || id in d.domains
      ensures DomainExact(d, id)
    {
      assert DomainExact(c, id);
    }
  }

  lemma ReservedExact(c: Cache, bytes: nat, domainBytes: nat)
    requires Exact(c, domainBytes) && c.continuations.None?
    ensures Exact(c.(retained := c.retained + bytes, continuations := Some(bytes)), domainBytes)
  {
    var d := c.(retained := c.retained + bytes, continuations := Some(bytes));
    forall id | id == 0 || id in d.domains
      ensures DomainExact(d, id)
    {
      assert DomainExact(c, id);
    }
  }

  /** With no entries and no empty domains only continuation storage remains. */
  lemma EmptyTotal(c: Cache, domainBytes: nat)
    requires Exact(c, domainBytes) && c.recent == []
    requires Populated(c.domains, c.entries)
    ensures c.domains.Keys == {} && c.retained == if c.continuations.Some? then c.continuations.value else 0
  {
    assert forall p :: p !in c.entries;
    assert forall id :: !HasEntries(c.entries, id);
    assert c.domains.Keys == {};
  }

  lemma PresentDomain(c: Cache, p: Place, domainBytes: nat)
    requires Exact(c, domainBytes) && p in c.entries
    ensures p.domain == 0 || p.domain in c.domains
  {
  }

  lemma AllPopulated(domains: map<nat, Domain>, entries: map<Place, Entry>)
    requires forall id :: id in domains ==> HasEntries(entries, id)
    ensures Populated(domains, entries)
  {
  }

  lemma EvictPopulated(before: map<nat, Domain>, after: map<nat, Domain>, entries: map<Place, Entry>, p: Place)
    requires Populated(before, entries) && 0 !in before
    requires after.Keys == if p.domain == 0 || HasEntries(entries - {p}, p.domain) then before.Keys
                           else before.Keys - {p.domain}
    ensures Populated(after, entries - {p})
  {
    forall id | id in after
      ensures HasEntries(entries - {p}, id)
    {
      if id != p.domain {
        var q :| q in entries && q.domain == id;
        assert q in entries - {p};
      }
    }
  }

  lemma RenewedExact(c: Cache, id: nat, generation: Option<nat>, domainBytes: nat)
    requires Exact(c, domainBytes) && DomainAt(c, id).Some?
    ensures var d := DomainAt(c, id).value.(generation := generation);
            Exact(if id == 0 then c.(anonymous := d) else c.(domains := c.domains[id := d]), domainBytes)
  {
    hide Sum, Distinct;
    var d := DomainAt(c, id).value.(generation := generation);
    var e := if id == 0 then c.(anonymous := d) else c.(domains := c.domains[id := d]);
    assert e.domains.Keys == c.domains.Keys;
    forall other | other == 0 || other in e.domains
      ensures DomainExact(e, other)
    {
      assert DomainExact(c, other);
    }
  }

  lemma {:induction false} DropNothing(r: seq<Place>, p: Place)
    requires p !in r
    ensures Drop(r, p) == r
  {
    if r != [] {
      DropNothing(r[..|r| - 1], p);
    }
  }

  lemma DropAbsent(c: Cache, p: Place, domainBytes: nat)
    requires Exact(c, domainBytes)
    ensures p !in c.entries ==> Drop(c.recent, p) == c.recent && p !in c.recent
  {
    if p !in c.entries {
      DropNothing(c.recent, p);
    }
  }
}
