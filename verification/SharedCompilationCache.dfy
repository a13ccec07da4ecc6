/** The bounded least-recently-used cache of published traces shared by several
    code caches. Operations run under one lock, so each is a single step. */
module SharedCompilationCache {

  /** Bytes of the listed plans. */
  function Total<K>(plans: map<K, nat>, recent: seq<K>): nat {
    if recent == [] then 0 else (if recent[0] in plans then plans[recent[0]] else 0) + Total(plans, recent[1..])
  }

  function Without<K(==)>(r: seq<K>, key: K): seq<K> {
    if r == [] then [] else if r[0] == key then Without(r[1..], key) else [r[0]] + Without(r[1..], key)
  }

  predicate Distinct<K(==)>(r: seq<K>) {
    r == [] || (r[0] !in r[1..] && Distinct(r[1..]))
  }

  lemma {:induction false} TotalAppend<K>(plans: map<K, nat>, r: seq<K>, key: K)
    requires key in plans
    ensures Total(plans, r + [key]) == Total(plans, r) + plans[key]
  {
    if r == [] {
      assert [key][1..] == [];
    } else {
      assert (r + [key])[1..] == r[1..] + [key];
      TotalAppend(plans, r[1..], key);
    }
  }

  lemma {:induction false} TotalSame<K>(plans: map<K, nat>, others: map<K, nat>, r: seq<K>)
    requires forall k :: k in r ==> (k in plans <==> k in others) && (k in plans ==> plans[k] == others[k])
    ensures Total(plans, r) == Total(others, r)
  {
    if r != [] {
      TotalSame(plans, others, r[1..]);
    }
  }

  lemma {:induction false} WithoutIs<K>(plans: map<K, nat>, r: seq<K>, key: K)
    requires Distinct(r)
    ensures Distinct(Without(r, key)) && forall k :: k in Without(r, key) <==> k in r && k != key
    ensures key in plans && key in r ==> Total(plans, Without(r, key)) + plans[key] == Total(plans, r)
    ensures key !in r ==> Without(r, key) == r
  {
    if r != [] {
      WithoutIs(plans, r[1..], key);
      var rest := Without(r[1..], key);
      assert ([r[0]] + rest)[1..] == rest;
    }
  }

  lemma {:induction false} DistinctAppend<K>(r: seq<K>, key: K)
    requires Distinct(r) && key !in r
    ensures Distinct(r + [key])
  {
    if r != [] {
      DistinctAppend(r[1..], key);
      assert (r + [key])[1..] == r[1..] + [key];
    }
  }

  class SharedCompilationCache<K(==,!new)> {
    const budget: nat
    var plans: map<K, nat>
    var recent: seq<K>
    var retained: nat
    var pressured: bool

    constructor (budget: nat)
      ensures this.budget == budget && Valid() && plans == map[] && !pressured
    {
      this.budget := budget;
      plans, recent, retained, pressured := map[], [], 0, false;
    }

    /** Recency lists every plan once; the counter is their total, within budget;
        under pressure nothing is retained. */
    ghost predicate Valid()
      reads this
    {
      && Distinct(recent) && (forall k :: k in plans <==> k in recent)
      && retained == Total(plans, recent) && retained <= budget
      && (pressured ==> plans == map[])
    }

    method Clear()
      modifies `plans, `recent, `retained
      ensures Valid() && plans == map[] && retained == 0
    {
      plans, recent, retained := map[], [], 0;
    }

    method SetPressureLimited(limited: bool)
      requires Valid()
      modifies this
      ensures Valid() && pressured == limited
      ensures plans == if limited then map[] else old(plans)
    {
      pressured := limited;
      if limited {
        Clear();
      }
    }

    /** The plan of a key, which becomes the most recent. */
    method Find(key: K) returns (found: bool)
      requires Valid()
      modifies `recent
      ensures Valid() && found == (key in plans)
      ensures recent == if found then Without(old(recent), key) + [key] else old(recent)
    {
      if key !in plans {
        return false;
      }
      WithoutIs(plans, recent, key);
      TotalAppend(plans, Without(recent, key), key);
      DistinctAppend(Without(recent, key), key);
      recent := Without(recent, key) + [key];
      return true;
    }

    /** Insert a plan unless pressed, too large or already present; only as many
        of the oldest plans as needed make room for it. */
    method Insert(key: K, bytes: nat)
      requires Valid()
      modifies `plans, `recent, `retained
      ensures Valid()
      ensures pressured || bytes > budget || key in old(plans) ==> plans == old(plans) && recent == old(recent)
      ensures !pressured && bytes <= budget && key !in old(plans) ==>
                && key in plans && plans[key] == bytes
                && (exists n: nat :: n <= |old(recent)| && recent == old(recent)[n..] + [key] &&
                      (n > 0 ==> Total(old(plans), old(recent)[n - 1..]) + bytes > budget))
                && (forall k :: k in plans && k != key ==> k in old(plans) && plans[k] == old(plans)[k])
    {
      if pressured || bytes > budget || key in plans {
        return;
      }
      ghost var n: nat := 0;
      while retained > budget - bytes
        invariant n <= |old(recent)| && recent == old(recent)[n..]
        invariant n > 0 ==> Total(old(plans), old(recent)[n - 1..]) + bytes > budget
        invariant Distinct(recent) && (forall k :: k in plans <==> k in recent)
        invariant retained == Total(plans, recent) && retained <= budget
        invariant forall k :: k in plans ==> k in old(plans) && plans[k] == old(plans)[k]
        decreases |recent|
      {
        TotalSame(plans, old(plans), recent);
        n := n + 1;
        EvictOldest();
      }
      Append(key, bytes);
      assert recent == old(recent)[n..] + [key];
    }

    method EvictOldest()
      requires Distinct(recent) && (forall k :: k in plans <==> k in recent)
      requires retained == Total(plans, recent) && recent != []
      modifies `plans, `recent, `retained
      ensures recent == old(recent)[1..] && plans == old(plans) - {old(recent)[0]}
      ensures Distinct(recent) && (forall k :: k in plans <==> k in recent)
      ensures retained == Total(plans, recent) && retained <= old(retained)
    {
      var oldest := recent[0];
      TotalSame(plans - {oldest}, plans, recent[1..]);
      retained := retained - plans[oldest];
      recent := recent[1..];
      plans := plans - {oldest};
    }

    method Append(key: K, bytes: nat)
      requires Distinct(recent) && (forall k :: k in plans <==> k in recent) && key !in plans
      requires retained == Total(plans, recent)
      modifies `plans, `recent, `retained
      ensures recent == old(recent) + [key] && plans == old(plans)[key := bytes]
      ensures Distinct(recent) && (forall k :: k in plans <==> k in recent)
      ensures retained == Total(plans, recent) == old(retained) + bytes
    {
      DistinctAppend(recent, key);
      TotalSame(plans[key := bytes], plans, recent);
      TotalAppend(plans[key := bytes], recent, key);
      plans := plans[key := bytes];
      recent := recent + [key];
      retained := retained + bytes;
    }
  }
}
