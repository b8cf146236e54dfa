/** The caches of internal/cache as plain sequences: most recently touched first. This is the
    specification the linked structure in LruTable is proved against. */
module LruModel {
  import opened Bytes
  import opened Options

  datatype Item<+V> = Item(key: bytes, value: V, stamp: int)

  function KeysOf<V>(items: seq<Item<V>>): set<bytes> { set i | 0 <= i < |items| :: items[i].key }

  ghost predicate DistinctKeys<V>(items: seq<Item<V>>) {
    forall i, j | 0 <= i < j < |items| :: items[i].key != items[j].key
  }

  function Find<V>(items: seq<Item<V>>, key: bytes): (r: Option<Item<V>>)
    ensures r.Some? <==> key in KeysOf(items)
    ensures r.Some? ==> r.value in items && r.value.key == key
  {
    if items == [] then None
    else if items[0].key == key then Some(items[0])
    else Find(items[1..], key)
  }

  function Without<V>(items: seq<Item<V>>, key: bytes): (r: seq<Item<V>>)
    ensures |r| <= |items|
  {
    if items == [] then []
    else (if items[0].key == key then [] else [items[0]]) + Without(items[1..], key)
  }

  function Cap<V>(items: seq<Item<V>>, max: nat): seq<Item<V>> {
    if |items| > max then items[..max] else items
  }

  // ---- the operations ----------------------------------------------------------------

  /** ResultCache.Get: an entry older than ttl is dropped, a live one moves to the front. */
  function Get<V>(items: seq<Item<V>>, key: bytes, now: int, ttl: int): (seq<Item<V>>, Option<V>) {
    match Find(items, key)
    case None => (items, None)
    case Some(it) =>
      if now - it.stamp > ttl then (Without(items, key), None)
      else ([it] + Without(items, key), Some(it.value))
  }

  /** ResultCache.Put and DNSCache.set. */
  function Put<V>(items: seq<Item<V>>, key: bytes, value: V, now: int, max: nat): seq<Item<V>> {
    Cap([Item(key, value, now)] + Without(items, key), max)
  }

  /** The first section of DNSCache.Lookup: here an entry of age exactly ttl has expired. */
  function Probe<V>(items: seq<Item<V>>, key: bytes, now: int, ttl: int): (seq<Item<V>>, Option<V>) {
    Get(items, key, now, ttl - 1)
  }

  // ---- facts about removal -----------------------------------------------------------

  lemma {:induction false} WithoutAbsent<V>(items: seq<Item<V>>, key: bytes)
    requires key !in KeysOf(items)
    ensures Without(items, key) == items
  {
    if items != [] {
      assert items[0].key in KeysOf(items);
      assert forall k | k in KeysOf(items[1..]) :: k in KeysOf(items);
      WithoutAbsent(items[1..], key);
    }
  }

  lemma {:induction false} WithoutKeys<V>(items: seq<Item<V>>, key: bytes)
    ensures KeysOf(Without(items, key)) == KeysOf(items) - {key}
    ensures forall it | it in Without(items, key) :: it in items && it.key != key
  {
    if items != [] {
      WithoutKeys(items[1..], key);
      var r, rest := Without(items, key), Without(items[1..], key);
      KeysCons(items[0], items[1..]);
      assert items == [items[0]] + items[1..];
      if items[0].key != key {
        KeysCons(items[0], rest);
      } else {
        assert r == rest;
      }
    }
  }

  lemma KeysCons<V>(x: Item<V>, items: seq<Item<V>>)
    ensures KeysOf([x] + items) == {x.key} + KeysOf(items)
  {
    var all := [x] + items;
    forall k | k in {x.key} + KeysOf(items) ensures k in KeysOf(all) {
      if k == x.key {
        assert all[0].key == k;
      } else {
        var i :| 0 <= i < |items| && items[i].key == k;
        assert all[i + 1].key == k;
      }
    }
  }

  lemma {:induction false} WithoutAt<V>(items: seq<Item<V>>, i: nat)
    requires DistinctKeys(items) && i < |items|
    ensures Without(items, items[i].key) == items[..i] + items[i + 1..]
  {
    if i == 0 {
      var rest := items[1..];
      assert items[0].key !in KeysOf(rest);
      WithoutAbsent(rest, items[0].key);
    } else {
      WithoutAt(items[1..], i - 1);
      assert items[1..][..i - 1] == items[1..i] && items[1..][i..] == items[i + 1..];
      assert items[..i] == [items[0]] + items[1..i];
    }
  }

  lemma {:induction false} WithoutDistinct<V>(items: seq<Item<V>>, key: bytes)
    requires DistinctKeys(items)
    ensures DistinctKeys(Without(items, key))
    ensures |Without(items, key)| == |items| - (if key in KeysOf(items) then 1 else 0)
  {
    if key in KeysOf(items) {
      var i :| 0 <= i < |items| && items[i].key == key;
      WithoutAt(items, i);
    } else {
      WithoutAbsent(items, key);
    }
  }

  lemma FrontDistinct<V>(x: Item<V>, items: seq<Item<V>>)
    requires DistinctKeys(items)
    ensures DistinctKeys([x] + Without(items, x.key))
  {
    WithoutDistinct(items, x.key);
    WithoutKeys(items, x.key);
    forall it | it in Without(items, x.key) ensures it.key != x.key {
    }
  }

  lemma {:induction false} FindAt<V>(items: seq<Item<V>>, i: nat)
    requires DistinctKeys(items) && i < |items|
    ensures Find(items, items[i].key) == Some(items[i])
  {
  }

  lemma {:induction false} FindWithout<V>(items: seq<Item<V>>, key: bytes, other: bytes)
    requires key != other
    ensures Find(Without(items, other), key) == Find(items, key)
  {
    if items != [] {
      FindWithout(items[1..], key, other);
      if items[0].key != other {
        assert Without(items, other)[1..] == Without(items[1..], other);
      } else {
        assert Without(items, other) == Without(items[1..], other);
      }
    }
  }

  // ---- the operations in full --------------------------------------------------------

  /** Looking up the key of the i-th item: a hit while its age is at most ttl, which brings it to the
      front; older than that it is dropped. For the DNS cache an age of exactly ttl is too old. */
  lemma GetAt<V>(items: seq<Item<V>>, i: nat, now: int, ttl: int)
    requires DistinctKeys(items) && i < |items|
    ensures var it, rest := items[i], items[..i] + items[i + 1..];
      && Get(items, it.key, now, ttl) ==
        (if now - it.stamp <= ttl then ([it] + rest, Some(it.value)) else (rest, None))
      && Probe(items, it.key, now, ttl) ==
        (if now - it.stamp < ttl then ([it] + rest, Some(it.value)) else (rest, None))
  {
    FindAt(items, i);
    WithoutAt(items, i);
  }

  lemma GetAbsent<V>(items: seq<Item<V>>, key: bytes, now: int, ttl: int)
    requires forall i | 0 <= i < |items| :: items[i].key != key
    ensures Get(items, key, now, ttl) == Probe(items, key, now, ttl) == (items, None)
  {
    assert key !in KeysOf(items);
  }

  /** Putting a key that is held refreshes it in front; a new one goes in front of all, and takes the
      place of the last when there is no room. */
  lemma PutAt<V>(items: seq<Item<V>>, i: nat, key: bytes, value: V, now: int, max: nat)
    requires DistinctKeys(items) && |items| <= max && max > 0
    ensures i < |items| && items[i].key == key ==>
      Put(items, key, value, now, max) == [Item(key, value, now)] + items[..i] + items[i + 1..]
    ensures (forall j | 0 <= j < |items| :: items[j].key != key) ==>
      Put(items, key, value, now, max) ==
        [Item(key, value, now)] + (if |items| == max then items[..max - 1] else items)
  {
    if i < |items| && items[i].key == key {
      WithoutAt(items, i);
    } else if forall j | 0 <= j < |items| :: items[j].key != key {
      assert key !in KeysOf(items);
      WithoutAbsent(items, key);
    }
  }

  // ---- traces ------------------------------------------------------------------------

  datatype Event<+V> = GetEvent(key: bytes, now: int) | PutEvent(key: bytes, value: V, now: int)

  function Step<V>(items: seq<Item<V>>, e: Event<V>, ttl: int, max: nat): seq<Item<V>> {
    match e
    case GetEvent(k, now) => Get(items, k, now, ttl).0
    case PutEvent(k, v, now) => Put(items, k, v, now, max)
  }

  function Run<V>(items: seq<Item<V>>, trace: seq<Event<V>>, ttl: int, max: nat): seq<Item<V>> {
    if trace == [] then items
    else Step(Run(items, trace[..|trace| - 1], ttl, max), trace[|trace| - 1], ttl, max)
  }

  ghost predicate WellFormed<V>(items: seq<Item<V>>, max: nat) { DistinctKeys(items) && |items| <= max }

  lemma StepKeeps<V>(items: seq<Item<V>>, e: Event<V>, ttl: int, max: nat)
    requires WellFormed(items, max) && max > 0
    ensures WellFormed(Step(items, e, ttl, max), max)
  {
    WithoutDistinct(items, e.key);
    match e {
      case GetEvent(k, now) =>
        if Find(items, k).Some? {
          FrontDistinct(Find(items, k).value, items);
        }
      case PutEvent(k, v, now) =>
        FrontDistinct(Item(k, v, now), items);
    }
  }

  lemma {:induction false} RunKeeps<V>(items: seq<Item<V>>, trace: seq<Event<V>>, ttl: int, max: nat)
    requires WellFormed(items, max) && max > 0
    ensures WellFormed(Run(items, trace, ttl, max), max)
  {
    if trace != [] {
      RunKeeps(items, trace[..|trace| - 1], ttl, max);
      StepKeeps(Run(items, trace[..|trace| - 1], ttl, max), trace[|trace| - 1], ttl, max);
    }
  }
}
