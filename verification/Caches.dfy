/** The two caches of internal/cache: result.go and dns.go. Every method runs undisturbed here;
    DnsSchedules and ResultSchedules look at their critical sections under interleaving. Durations
    are in nanoseconds and the clock is an argument. */
module Caches {
  import opened Bytes
  import opened Options
  import opened LinkedList
  import opened LruModel
  import opened LruTable

  const SECOND: int := 1_000_000_000

  class ResultCache<V> {
    const table: Table<V>
    const ttl: int
    var hits: int
    var misses: int

    ghost predicate Valid()
      reads this, table, table.lru, table.lru.root, table.lru.elems, set el | el in table.lru.elems :: el.entry
    {
      table.Valid() && table.maxSize > 0 && |table.items| <= table.maxSize
    }

    constructor (maxSize: int, ttl: int)
      ensures Valid() && table.items == [] && hits == 0 && misses == 0
      ensures table.maxSize == if maxSize <= 0 then 500 else maxSize
      ensures this.ttl == if ttl <= 0 then 600 * SECOND else ttl
    {
      table := new Table(if maxSize <= 0 then 500 else maxSize);
      this.ttl := if ttl <= 0 then 600 * SECOND else ttl;
      hits, misses := 0, 0;
    }

    method Get(key: bytes, now: int) returns (r: Option<V>)
      requires Valid()
      modifies this, table, table.lru, table.lru.root, table.lru.elems
      ensures Valid() && (table.items, r) == LruModel.Get(old(table.items), key, now, ttl)
      ensures hits == old(hits) + (if r.Some? then 1 else 0)
      ensures misses == old(misses) + (if r.None? then 1 else 0)
    {
      table.Found(key);
      if key !in table.entries {
        CountMiss();
        return None;
      }
      var e := table.entries[key];
      table.FiledUnderKey(key);
      if now - e.stamp > ttl {
        DropExpired(e);
        return None;
      }
      CountHit(e);
      return Some(e.value);
    }

    /** The locked last section of a Get that found no entry. */
    method CountMiss()
      requires Valid()
      modifies this`misses
      ensures Valid() && misses == old(misses) + 1
    {
      misses := misses + 1;
    }

    /** The locked last section of a Get that found its entry too old. */
    method DropExpired(e: Entry<V>)
      requires Valid() && e.key in table.entries && table.entries[e.key] == e
      modifies this`misses, table, table.lru, table.lru.root, table.lru.elems
      ensures Valid() && table.items == Without(old(table.items), e.key)
      ensures misses == old(misses) + 1
    {
      misses := misses + 1;
      table.DelEntry(e);
    }

    /** The locked last section of a Get that found a live entry. */
    method CountHit(e: Entry<V>)
      requires Valid() && e.key in table.entries && table.entries[e.key] == e
      modifies this`hits, table`items, table.lru, table.lru.root, table.lru.elems
      ensures Valid() && table.items == [Item(e.key, e.value, e.stamp)] + Without(old(table.items), e.key)
      ensures hits == old(hits) + 1
    {
      hits := hits + 1;
      table.TouchedSize(e.key);
      table.Touch(e);
    }

    method Put(key: bytes, value: V, now: int)
      requires Valid()
      modifies table, table.lru, table.lru.root, table.lru.elems, table.entries.Values
      ensures Valid() && table.items == LruModel.Put(old(table.items), key, value, now, table.maxSize)
      ensures hits == old(hits) && misses == old(misses)
    {
      table.Put(key, value, now);
    }

    method Stats() returns (h: int, m: int, size: nat, max: nat)
      requires Valid()
      ensures h == hits && m == misses && size == |table.items| && max == table.maxSize
    {
      table.EntryCount();
      return hits, misses, |table.entries|, table.maxSize;
    }
  }

  class DnsCache<V> {
    const table: Table<V>
    const ttl: int

    ghost predicate Valid()
      reads this, table, table.lru, table.lru.root, table.lru.elems, set el | el in table.lru.elems :: el.entry
    {
      table.Valid() && table.maxSize > 0 && |table.items| <= table.maxSize
    }

    constructor (maxSize: int, ttl: int)
      ensures Valid() && table.items == []
      ensures table.maxSize == if maxSize <= 0 then 1000 else maxSize
      ensures this.ttl == if ttl <= 0 then 300 * SECOND else ttl
    {
      table := new Table(if maxSize <= 0 then 1000 else maxSize);
      this.ttl := if ttl <= 0 then 300 * SECOND else ttl;
    }

    /** The locked first section of Lookup. */
    method Probe(host: bytes, now: int) returns (r: Option<V>)
      requires Valid()
      modifies table, table.lru, table.lru.root, table.lru.elems
      ensures Valid() && (table.items, r) == LruModel.Probe(old(table.items), host, now, ttl)
      ensures table.entries.Values <= old(table.entries.Values)
      ensures forall i | 0 <= i < |table.lru.elems| :: table.lru.elems[i] in old(table.lru.elems)
    {
      table.Found(host);
      GetBounded(table.entries.Keys, table.items, host, now, ttl - 1, table.maxSize);
      if host in table.entries {
        var e := table.entries[host];
        table.FiledUnderKey(host);
        if now - e.stamp < ttl {
          table.Touch(e);
          return Some(e.value);
        }
        table.DelEntry(e);
      }
      return None;
    }

    /** The locked second section, once the resolver has answered. */
    method Set(host: bytes, addrs: V, now: int)
      requires Valid()
      modifies table, table.lru, table.lru.root, table.lru.elems, table.entries.Values
      ensures Valid() && table.items == LruModel.Put(old(table.items), host, addrs, now, table.maxSize)
    {
      table.Put(host, addrs, now);
    }

    /** Lookup undisturbed: answer is what the resolver would say, later the time it says it. */
    method Lookup(host: bytes, now: int, answer: Option<V>, later: int) returns (r: Option<V>)
      requires Valid()
      modifies table, table.lru, table.lru.root, table.lru.elems, table.entries.Values
      ensures Valid()
      ensures var (items, hit) := LruModel.Probe(old(table.items), host, now, ttl);
        && r == (if hit.Some? then hit else answer)
        && table.items == if hit.Some? || answer.None? then items
                          else LruModel.Put(items, host, answer.value, later, table.maxSize)
    {
      r := Probe(host, now);
      if r.Some? {
        return;
      }
      if answer.None? {
        return None;
      }
      Set(host, answer.value, later);
      return answer;
    }
  }
}
