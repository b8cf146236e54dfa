/** The hash map and recency list that both caches of internal/cache keep in step; result.go and
    dns.go repeat this code. The clock is an argument. */
module LruTable {
  import opened Bytes
  import opened Options
  import opened LinkedList
  import opened LruModel

  class Table<V> {
    const maxSize: nat
    const lru: List<V>
    var entries: map<bytes, Entry<V>>
    ghost var items: seq<Item<V>>  // the entries as a sequence, most recent first

    /** Element and entry point at each other, the entry is filed under its key, and together
        they are the item it. */
    static ghost predicate Row(filed: map<bytes, Entry<V>>, el: Element<V>, it: Item<V>)
      reads el.entry
    {
      && el.entry != null && el.entry.elem == el
      && it == Item(el.entry.key, el.entry.value, el.entry.stamp)
      && it.key in filed && filed[it.key] == el.entry
    }

    static ghost predicate Rows(filed: map<bytes, Entry<V>>, elems: seq<Element<V>>, s: seq<Item<V>>)
      reads set el | el in elems :: el.entry
    {
      |elems| == |s| && forall i {:trigger elems[i]} | 0 <= i < |s| :: Row(filed, elems[i], s[i])
    }

    /** The map and the list hold the same entries. */
    ghost predicate Valid()
      reads this, lru, lru.root, lru.elems, set el | el in lru.elems :: el.entry
    {
      lru.Valid() && Rows(entries, lru.elems, items) && Indexes(entries.Keys, items)
    }

    /** Leaving out the i-th row, whose key no other row has. */
    static lemma RowsDropped(filed: map<bytes, Entry<V>>, elems: seq<Element<V>>, s: seq<Item<V>>, i: nat)
      requires Rows(filed, elems, s) && i < |s| && forall j | 0 <= j < |s| && j != i :: s[j].key != s[i].key
      ensures Rows(filed, elems[..i] + elems[i + 1..], s[..i] + s[i + 1..])
      ensures Rows(filed - {s[i].key}, elems[..i] + elems[i + 1..], s[..i] + s[i + 1..])
    {
      var key, els, t := s[i].key, elems[..i] + elems[i + 1..], s[..i] + s[i + 1..];
      forall j {:trigger els[j]} | 0 <= j < |t| ensures Row(filed, els[j], t[j]) && Row(filed - {key}, els[j], t[j]) {
        var k := if j < i then j else j + 1;
        assert els[j] == elems[k] && t[j] == s[k] && s[k].key != key;
      }
    }

    /** Deleting the i-th row, and its key with it. */
    static lemma RowsWithout(filed: map<bytes, Entry<V>>, elems: seq<Element<V>>, s: seq<Item<V>>, i: nat)
      requires Rows(filed, elems, s) && Indexes(filed.Keys, s) && i < |s|
      ensures var key := s[i].key;
        && Rows(filed - {key}, elems[..i] + elems[i + 1..], Without(s, key))
        && Rows(filed, elems[..i] + elems[i + 1..], Without(s, key))
        && Indexes((filed - {key}).Keys, Without(s, key))
    {
      IndexesDropped(filed.Keys, s, i);
      RowsDropped(filed, elems, s, i);
      assert (filed - {s[i].key}).Keys == filed.Keys - {s[i].key};
    }

    static lemma RowsFront(
        filed: map<bytes, Entry<V>>, el: Element<V>, it: Item<V>, elems: seq<Element<V>>, s: seq<Item<V>>)
      requires Rows(filed, elems, s) && Row(filed, el, it)
      ensures Rows(filed, [el] + elems, [it] + s)
    {
    }

    /** Moving the i-th row to the front. */
    static lemma RowsMoved(filed: map<bytes, Entry<V>>, elems: seq<Element<V>>, s: seq<Item<V>>, i: nat)
      requires Rows(filed, elems, s) && Indexes(filed.Keys, s) && i < |s|
      ensures Rows(filed, [elems[i]] + (elems[..i] + elems[i + 1..]), [s[i]] + Without(s, s[i].key))
      ensures Indexes(filed.Keys, [s[i]] + Without(s, s[i].key))
    {
      RowsWithout(filed, elems, s, i);
      assert Row(filed, elems[i], s[i]);
      RowsFront(filed, elems[i], s[i], elems[..i] + elems[i + 1..], Without(s, s[i].key));
      assert (filed - {s[i].key}).Keys == filed.Keys - {s[i].key};
      IndexesFront(filed.Keys, s[i], Without(s, s[i].key));
    }

    /** A new row at the front. */
    static lemma RowsInserted(
        filed: map<bytes, Entry<V>>, elems: seq<Element<V>>, s: seq<Item<V>>, e: Entry<V>, el: Element<V>)
      requires Rows(filed, elems, s) && Indexes(filed.Keys, s) && e.key !in filed
      requires e.elem == el && el.entry == e
      ensures Rows(filed[e.key := e], [el] + elems, [Item(e.key, e.value, e.stamp)] + s)
      ensures Indexes(filed[e.key := e].Keys, [Item(e.key, e.value, e.stamp)] + s)
    {
      var wider := filed[e.key := e];
      forall j {:trigger elems[j]} | 0 <= j < |s| ensures Row(wider, elems[j], s[j]) {
        assert Row(filed, elems[j], s[j]);
      }
      RowsFront(wider, el, Item(e.key, e.value, e.stamp), elems, s);
      assert wider.Keys - {e.key} == filed.Keys;
      IndexesFront(wider.Keys, Item(e.key, e.value, e.stamp), s);
    }

    lemma PositionOf(e: Entry<V>) returns (i: nat)
      requires Valid() && e.key in entries && entries[e.key] == e
      ensures i < |items| && items[i].key == e.key && lru.elems[i] == e.elem && e.elem.entry == e
      ensures items[i] == Item(e.key, e.value, e.stamp)
    {
      IndexesMeans(entries.Keys, items);
      assert e.key in KeysOf(items);
      i :| 0 <= i < |items| && items[i].key == e.key;
      assert Row(entries, lru.elems[i], items[i]);
    }

    lemma FiledUnderKey(key: bytes)
      requires Valid() && key in entries
      ensures entries[key].key == key && entries[key] in entries.Values
    {
      IndexesMeans(entries.Keys, items);
      var i :| 0 <= i < |items| && items[i].key == key;
      assert Row(entries, lru.elems[i], items[i]);
    }

    lemma EntryCount()
      requires Valid()
      ensures |entries| == |items|
    {
      assert |entries| == |entries.Keys|;
      IndexesCount(entries.Keys, items);
    }

    lemma Found(key: bytes)
      requires Valid()
      ensures Find(items, key) ==
        if key in entries then Some(Item(key, entries[key].value, entries[key].stamp)) else None
    {
      IndexesMeans(entries.Keys, items);
      if key in entries {
        var i :| 0 <= i < |items| && items[i].key == key;
        FindAt(items, i);
        assert Row(entries, lru.elems[i], items[i]);
      }
    }

    /** Moving an entry to the front does not add one. */
    lemma TouchedSize(key: bytes)
      requires Valid() && key in entries
      ensures |Without(items, key)| + 1 == |items|
    {
      IndexesMeans(entries.Keys, items);
      WithoutDistinct(items, key);
    }

    constructor (maxSize: nat)
      ensures Valid() && items == [] && this.maxSize == maxSize && fresh(lru) && fresh(lru.root)
    {
      this.maxSize := maxSize;
      entries, items := map[], [];
      lru := new List();
    }

    static lemma ValuesWithout(filed: map<bytes, Entry<V>>, key: bytes)
      ensures (filed - {key}).Values <= filed.Values
    {
    }

    /** Takes the i-th element out of the list; the rows as such stay as they are. */
    method UnlinkRow(e: Entry<V>, ghost i: nat, ghost filed: map<bytes, Entry<V>>, ghost s: seq<Item<V>>)
      requires lru.Valid() && Rows(filed, lru.elems, s) && i < |lru.elems| && e.elem == lru.elems[i]
      modifies lru, lru.root, lru.elems
      ensures lru.Valid() && lru.elems == old(lru.elems)[..i] + old(lru.elems)[i + 1..]
      ensures forall j | 0 <= j < |lru.elems| :: lru.elems[j] in old(lru.elems)
      ensures Rows(filed, old(lru.elems), s)
    {
      ghost var els := lru.elems;
      lru.Remove(e.elem, i);
      assert Rows(filed, els, s);
    }

    /** Moves the i-th element to the front; the rows as such stay as they are. */
    method RaiseRow(e: Entry<V>, ghost i: nat, ghost filed: map<bytes, Entry<V>>, ghost s: seq<Item<V>>)
      requires lru.Valid() && Rows(filed, lru.elems, s) && i < |lru.elems| && e.elem == lru.elems[i]
      modifies lru, lru.root, lru.elems
      ensures lru.Valid()
      ensures lru.elems == [old(lru.elems)[i]] + (old(lru.elems)[..i] + old(lru.elems)[i + 1..])
      ensures forall j | 0 <= j < |lru.elems| :: lru.elems[j] in old(lru.elems)
      ensures Rows(filed, old(lru.elems), s)
    {
      ghost var els := lru.elems;
      lru.MoveToFront(e.elem, i);
      assert Rows(filed, els, s);
    }

    method DelEntry(e: Entry<V>)
      requires Valid() && e.key in entries && entries[e.key] == e
      modifies this, lru, lru.root, lru.elems
      ensures Valid() && items == Without(old(items), e.key)
      ensures entries.Values <= old(entries.Values)
      ensures forall i | 0 <= i < |lru.elems| :: lru.elems[i] in old(lru.elems)
    {
      ghost var i := PositionOf(e);
      ghost var was, s, els := entries, items, lru.elems;
      entries, items := entries - {e.key}, Without(s, e.key);
      ValuesWithout(was, e.key);
      UnlinkRow(e, i, was, s);
      RowsWithout(was, els, s, i);
    }

    method Touch(e: Entry<V>)
      requires Valid() && e.key in entries && entries[e.key] == e
      modifies this`items, lru, lru.root, lru.elems
      ensures Valid() && items == [Item(e.key, e.value, e.stamp)] + Without(old(items), e.key)
      ensures forall i | 0 <= i < |lru.elems| :: lru.elems[i] in old(lru.elems)
    {
      ghost var i := PositionOf(e);
      ghost var s, els := items, lru.elems;
      items := [s[i]] + Without(s, e.key);
      RaiseRow(e, i, entries, s);
      RowsMoved(entries, els, s, i);
    }

    method EvictOldest()
      requires Valid()
      modifies this, lru, lru.root, lru.elems
      ensures Valid() && items == if old(items) == [] then [] else old(items)[..|old(items)| - 1]
    {
      var back := lru.Back();
      if back != null {
        assert Row(entries, back, items[|items| - 1]);
        LastWithout(entries.Keys, items);
        DelEntry(back.entry);
      }
    }

    method Insert(key: bytes, value: V, now: int)
      requires Valid() && key !in entries
      modifies this, lru, lru.root, lru.elems
      ensures Valid() && items == [Item(key, value, now)] + old(items)
      ensures exists el :: fresh(el) && lru.elems == [el] + old(lru.elems)
    {
      var e := new Entry(key, value, now);
      var el := File(e);
    }

    /** Puts a new element for the entry at the front; the rows there were stay as they are. */
    method LinkNew(e: Entry<V>, ghost filed: map<bytes, Entry<V>>, ghost s: seq<Item<V>>) returns (el: Element<V>)
      requires lru.Valid() && Rows(filed, lru.elems, s)
      requires forall i {:trigger lru.elems[i]} | 0 <= i < |lru.elems| :: lru.elems[i].entry != e
      modifies lru, lru.root, lru.elems, e`elem
      ensures lru.Valid() && fresh(el) && lru.elems == [el] + old(lru.elems)
      ensures Rows(filed, old(lru.elems), s)
      ensures el.entry == e && e.elem == el
    {
      ghost var els := lru.elems;
      el := lru.PushFront(e);
      assert Rows(filed, els, s);
    }

    /** Files an entry no row knows yet. */
    method File(e: Entry<V>) returns (el: Element<V>)
      requires Valid() && e.key !in entries
      requires forall i {:trigger lru.elems[i]} | 0 <= i < |lru.elems| :: lru.elems[i].entry != e
      modifies this, lru, lru.root, lru.elems, e`elem
      ensures Valid() && items == [Item(e.key, e.value, e.stamp)] + old(items)
      ensures fresh(el) && lru.elems == [el] + old(lru.elems)
    {
      ghost var was, s, els := entries, items, lru.elems;
      entries, items := entries[e.key := e], [Item(e.key, e.value, e.stamp)] + s;
      el := LinkNew(e, was, s);
      RowsInserted(was, els, s, e, el);
    }

    /** A new value and time stamp where the entry stands. */
    method Restamp(e: Entry<V>, ghost i: nat, value: V, now: int)
      requires Valid() && e.key in entries && entries[e.key] == e
      requires i < |items| && items[i].key == e.key && lru.elems[i].entry == e
      modifies this`items, e`value, e`stamp
      ensures Valid() && e.value == value && e.stamp == now
      ensures items == old(items)[i := Item(e.key, value, now)]
      ensures Without(items, e.key) == Without(old(items), e.key)
    {
      ghost var s, els := items, lru.elems;
      RestampedIndexes(entries.Keys, s, i, value, now);
      items := s[i := Item(e.key, value, now)];
      e.value, e.stamp := value, now;
      assert Rows(entries, els, items) by {
        assert forall j {:trigger els[j]} | 0 <= j < |s| && j != i :: els[j].entry != e;
      }
    }

    /** Put on a key that is there: a new value and time stamp, and to the front. */
    method Refresh(e: Entry<V>, value: V, now: int)
      requires Valid() && e.key in entries && entries[e.key] == e
      modifies this`items, e`value, e`stamp, lru, lru.root, lru.elems
      ensures Valid() && items == [Item(e.key, value, now)] + Without(old(items), e.key)
    {
      ghost var i := PositionOf(e);
      Restamp(e, i, value, now);
      Touch(e);
    }

    method Put(key: bytes, value: V, now: int)
      requires Valid() && |items| <= maxSize && maxSize > 0
      modifies this, lru, lru.root, lru.elems, entries.Values
      ensures Valid() && items == LruModel.Put(old(items), key, value, now, maxSize)
    {
      PutCases(entries.Keys, items, key, value, now, maxSize);
      if key in entries {
        var e := entries[key];
        FiledUnderKey(key);
        Refresh(e, value, now);
        return;
      }
      Insert(key, value, now);
      if lru.len > maxSize {
        EvictOldest();
      }
    }
  }

  /** keys is exactly the set of keys of the items, each of which occurs once. */
  ghost predicate Indexes<V>(keys: set<bytes>, s: seq<Item<V>>) {
    if s == [] then keys == {} else s[0].key in keys && Indexes(keys - {s[0].key}, s[1..])
  }

  lemma {:induction false} IndexesMeans<V>(keys: set<bytes>, s: seq<Item<V>>)
    ensures Indexes(keys, s) <==> DistinctKeys(s) && keys == KeysOf(s)
  {
    if s != [] {
      IndexesMeans(keys - {s[0].key}, s[1..]);
      KeysCons(s[0], s[1..]);
      assert s == [s[0]] + s[1..];
      if DistinctKeys(s) {
        assert s[0].key !in KeysOf(s[1..]);
      }
    }
  }

  lemma IndexesFront<V>(keys: set<bytes>, x: Item<V>, s: seq<Item<V>>)
    requires x.key in keys && Indexes(keys - {x.key}, s)
    ensures Indexes(keys, [x] + s)
  {
  }

  lemma {:induction false} IndexesCount<V>(keys: set<bytes>, s: seq<Item<V>>)
    requires Indexes(keys, s)
    ensures |keys| == |s|
  {
    if s != [] {
      IndexesCount(keys - {s[0].key}, s[1..]);
    }
  }

  lemma GetBounded<V>(keys: set<bytes>, s: seq<Item<V>>, key: bytes, now: int, ttl: int, max: nat)
    requires Indexes(keys, s) && |s| <= max && max > 0
    ensures |LruModel.Get(s, key, now, ttl).0| <= max
  {
    IndexesMeans(keys, s);
    StepKeeps(s, GetEvent(key, now), ttl, max);
  }

  lemma LastWithout<V>(keys: set<bytes>, s: seq<Item<V>>)
    requires Indexes(keys, s) && s != []
    ensures Without(s, s[|s| - 1].key) == s[..|s| - 1]
  {
    IndexesMeans(keys, s);
    WithoutAt(s, |s| - 1);
  }

  /** Changing value and time stamp of one item changes neither the keys nor what is left
      without it. */
  lemma IndexesDropped<V>(keys: set<bytes>, s: seq<Item<V>>, i: nat)
    requires Indexes(keys, s) && i < |s|
    ensures Without(s, s[i].key) == s[..i] + s[i + 1..]
    ensures Indexes(keys - {s[i].key}, Without(s, s[i].key))
    ensures forall j | 0 <= j < |s| && j != i :: s[j].key != s[i].key
  {
    IndexesMeans(keys, s);
    WithoutAt(s, i);
    WithoutKeys(s, s[i].key);
    WithoutDistinct(s, s[i].key);
    IndexesMeans(keys - {s[i].key}, Without(s, s[i].key));
  }

  lemma RestampedIndexes<V>(keys: set<bytes>, s: seq<Item<V>>, i: nat, value: V, now: int)
    requires Indexes(keys, s) && i < |s|
    ensures var t := s[i := Item(s[i].key, value, now)];
      Indexes(keys, t) && Without(t, s[i].key) == Without(s, s[i].key)
  {
    var t := s[i := Item(s[i].key, value, now)];
    IndexesMeans(keys, s);
    IndexesMeans(keys, t);
    WithoutAt(s, i);
    WithoutAt(t, i);
    forall k | k in KeysOf(s) ensures k in KeysOf(t) {
      var j :| 0 <= j < |s| && s[j].key == k;
      assert t[j].key == k;
    }
    forall k | k in KeysOf(t) ensures k in KeysOf(s) {
      var j :| 0 <= j < |t| && t[j].key == k;
      assert s[j].key == k;
    }
  }

  lemma PutCases<V>(keys: set<bytes>, s: seq<Item<V>>, key: bytes, value: V, now: int, max: nat)
    requires Indexes(keys, s) && |s| <= max && max > 0
    ensures LruModel.Put(s, key, value, now, max) ==
      if key in keys then [Item(key, value, now)] + Without(s, key)
      else if |s| < max then [Item(key, value, now)] + s
      else ([Item(key, value, now)] + s)[..|s|]
  {
    IndexesMeans(keys, s);
    WithoutDistinct(s, key);
    if key !in keys {
      WithoutAbsent(s, key);
    }
  }
}
