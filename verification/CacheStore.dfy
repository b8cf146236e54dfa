/** Map and list of the caches in internal/cache on values, for use under interleaving. Entries are
    numbered as they are created, so that a goroutine can keep hold of one across an unlock. */
module CacheStore {
  import opened Bytes
  import opened Options
  import opened LruModel

  /** Map and list, and every entry ever created. */
  datatype MapAndList<+V> = MapAndList(entries: map<bytes, nat>, list: seq<nat>, cells: seq<Item<V>>)

  const EMPTY_MAP: map<bytes, nat> := map[]

  // ---- the shared sections -----------------------------------------------------------

  function Unlink(list: seq<nat>, id: nat): (r: seq<nat>)
    ensures forall x :: x in r <==> x in list && x != id
  {
    if list == [] then []
    else
      var rest := Unlink(list[1..], id);
      assert list == [list[0]] + list[1..];
      if list[0] == id then rest else [list[0]] + rest
  }

  /** container/list: moving an element that is no longer linked does nothing. */
  function ToFront(list: seq<nat>, id: nat): seq<nat> {
    if id in list then [id] + Unlink(list, id) else list
  }

  function Delete<V>(s: MapAndList<V>, id: nat): MapAndList<V>
    requires id < |s.cells|
  {
    s.(list := Unlink(s.list, id), entries := s.entries - {s.cells[id].key})
  }

  function Front<V>(s: MapAndList<V>, id: nat): MapAndList<V> { s.(list := ToFront(s.list, id)) }

  function Update<V>(s: MapAndList<V>, id: nat, it: Item<V>): MapAndList<V>
    requires id < |s.cells|
  {
    s.(cells := s.cells[id := it])
  }

  function Insert<V>(s: MapAndList<V>, it: Item<V>): MapAndList<V> {
    MapAndList(s.entries[it.key := |s.cells|], [|s.cells|] + s.list, s.cells + [it])
  }

  function EvictOldest<V>(s: MapAndList<V>): MapAndList<V>
    requires s.list != [] && s.list[|s.list| - 1] < |s.cells|
  {
    Delete(s, s.list[|s.list| - 1])
  }

  function Put<V>(s: MapAndList<V>, it: Item<V>, max: nat): MapAndList<V>
    requires Loose(s)
  {
    if it.key in s.entries then Front(Update(s, s.entries[it.key], it), s.entries[it.key])
    else if |s.list| + 1 > max then LastLinked(Insert(s, it)); EvictOldest(Insert(s, it))
    else Insert(s, it)
  }

  // ---- invariants --------------------------------------------------------------------

  ghost predicate NoDup(list: seq<nat>) {
    list == [] || (list[0] !in list[1..] && NoDup(list[1..]))
  }

  /** Every map entry is linked, under its own key. */
  ghost predicate Loose<V>(s: MapAndList<V>) {
    && NoDup(s.list)
    && (forall id | id in s.list :: id < |s.cells|)
    && (forall k | k in s.entries ::
          s.entries[k] in s.list && s.entries[k] < |s.cells| && s.cells[s.entries[k]].key == k)
  }

  /** Map and list hold the same entries. */
  ghost predicate Exact<V>(s: MapAndList<V>) {
    && Loose(s)
    && forall id | id in s.list :: s.cells[id].key in s.entries && s.entries[s.cells[id].key] == id
  }

  lemma LastLinked<V>(s: MapAndList<V>)
    requires s.list != [] && (forall id | id in s.list :: id < |s.cells|)
    ensures s.list[|s.list| - 1] in s.list && s.list[|s.list| - 1] < |s.cells|
  {
  }

  lemma {:induction false} UnlinkNoDup(list: seq<nat>, id: nat)
    requires NoDup(list)
    ensures NoDup(Unlink(list, id)) && |Unlink(list, id)| == |list| - (if id in list then 1 else 0)
  {
    if list != [] {
      UnlinkNoDup(list[1..], id);
      assert list == [list[0]] + list[1..];
      assert list[0] != id ==> Unlink(list, id)[1..] == Unlink(list[1..], id);
    }
  }

  lemma ToFrontNoDup(list: seq<nat>, id: nat)
    requires NoDup(list)
    ensures NoDup(ToFront(list, id)) && |ToFront(list, id)| == |list|
    ensures forall x :: x in ToFront(list, id) <==> x in list
  {
    UnlinkNoDup(list, id);
    assert ([id] + Unlink(list, id))[1..] == Unlink(list, id);
  }

  lemma DeleteLoose<V>(s: MapAndList<V>, id: nat)
    requires Loose(s) && id < |s.cells|
    ensures Loose(Delete(s, id)) && |Delete(s, id).list| == |s.list| - (if id in s.list then 1 else 0)
  {
    UnlinkNoDup(s.list, id);
  }

  lemma FrontLoose<V>(s: MapAndList<V>, id: nat)
    requires Loose(s)
    ensures Loose(Front(s, id)) && |Front(s, id).list| == |s.list|
    ensures Exact(s) ==> Exact(Front(s, id))
  {
    ToFrontNoDup(s.list, id);
  }

  lemma InsertLoose<V>(s: MapAndList<V>, it: Item<V>)
    requires Loose(s) && it.key !in s.entries
    ensures Loose(Insert(s, it)) && |Insert(s, it).list| == |s.list| + 1
    ensures Insert(s, it).list[|s.list|] < |s.cells| + 1
    ensures Exact(s) ==> Exact(Insert(s, it))
  {
    assert Insert(s, it).list[1..] == s.list;
    LastLinked(Insert(s, it));
  }

  lemma UpdateLoose<V>(s: MapAndList<V>, id: nat, it: Item<V>)
    requires Loose(s) && id < |s.cells| && s.cells[id].key == it.key
    ensures Loose(Update(s, id, it))
    ensures Exact(s) ==> Exact(Update(s, id, it))
  {
  }

  lemma PutLoose<V>(s: MapAndList<V>, it: Item<V>, max: nat)
    requires Loose(s) && |s.list| <= max
    ensures Loose(Put(s, it, max)) && |Put(s, it, max).list| <= max
    ensures Exact(s) ==> Exact(Put(s, it, max))
  {
    if it.key in s.entries {
      UpdateLoose(s, s.entries[it.key], it);
      FrontLoose(Update(s, s.entries[it.key], it), s.entries[it.key]);
    } else {
      InsertLoose(s, it);
      EvictLoose(Insert(s, it));
    }
  }

  lemma EvictLoose<V>(s: MapAndList<V>)
    requires Loose(s) && s.list != [] && s.list[|s.list| - 1] < |s.cells|
    ensures Loose(EvictOldest(s)) && |EvictOldest(s).list| == |s.list| - 1
    ensures Exact(s) ==> Exact(EvictOldest(s))
  {
    LastLinked(s);
    EvictLinked(s, s.list[|s.list| - 1]);
  }

  lemma EvictLinked<V>(s: MapAndList<V>, id: nat)
    requires Loose(s) && id in s.list && id < |s.cells|
    ensures Loose(Delete(s, id)) && |Delete(s, id).list| == |s.list| - 1
    ensures Exact(s) ==> Exact(Delete(s, id))
  {
    DeleteLoose(s, id);
    if Exact(s) {
      DeleteExactIff(s, id);
    }
  }

  /** Distinct keys hold distinct linked entries, so the map is never larger than the list. */
  lemma {:induction false} MapFitsList<V>(s: MapAndList<V>)
    requires Loose(s)
    ensures |s.entries| <= |s.list|
    decreases |s.entries|
  {
    if s.entries != map[] {
      var k :| k in s.entries;
      var id := s.entries[k];
      DeleteLoose(s, id);
      assert |s.entries - {k}| == |s.entries| - 1 by {
        assert (s.entries - {k}).Keys == s.entries.Keys - {k};
      }
      MapFitsList(Delete(s, id));
    }
  }

  /** Deleting keeps map and list exact when, and only when, the entry is still linked or no
      newer entry is filed under its key. */
  lemma DeleteExactIff<V>(s: MapAndList<V>, id: nat)
    requires Exact(s) && id < |s.cells|
    ensures Exact(Delete(s, id)) <==> id in s.list || s.cells[id].key !in s.entries
  {
    DeleteLoose(s, id);
    var key, t := s.cells[id].key, Delete(s, id);
    if id !in s.list && key in s.entries {
      var other := s.entries[key];
      assert other in t.list && t.cells[other].key == key && key !in t.entries;
    }
  }

  // ---- the store as a sequence of items ----------------------------------------------

  ghost function ItemsAt<V>(list: seq<nat>, cells: seq<Item<V>>): (r: seq<Item<V>>)
    requires forall id | id in list :: id < |cells|
    ensures |r| == |list|
  {
    if list == [] then []
    else
      assert list[0] in list && forall id | id in list[1..] :: id in list;
      [cells[list[0]]] + ItemsAt(list[1..], cells)
  }

  ghost function ItemsOf<V>(s: MapAndList<V>): (r: seq<Item<V>>)
    requires Loose(s)
    ensures |r| == |s.list|
  {
    ItemsAt(s.list, s.cells)
  }

  /** id is the one linked entry, if any, with that key. */
  ghost predicate OnlyOne<V>(list: seq<nat>, cells: seq<Item<V>>, id: nat, key: bytes) {
    forall x | x in list :: x < |cells| && (cells[x].key == key <==> x == id)
  }

  lemma {:induction false} UnlinkItems<V>(list: seq<nat>, cells: seq<Item<V>>, id: nat, key: bytes)
    requires OnlyOne(list, cells, id, key)
    ensures ItemsAt(Unlink(list, id), cells) == Without(ItemsAt(list, cells), key)
    ensures Find(ItemsAt(list, cells), key) == if id in list then Some(cells[id]) else None
  {
    if list != [] {
      var rest := list[1..];
      assert list == [list[0]] + rest;
      assert forall x | x in rest :: x in list;
      UnlinkItems(rest, cells, id, key);
      var items := ItemsAt(list, cells);
      assert items[0] == cells[list[0]] && items[1..] == ItemsAt(rest, cells);
      if list[0] != id {
        assert Unlink(list, id)[1..] == Unlink(rest, id);
      }
    }
  }

  lemma {:induction false} ItemsUpdated<V>(list: seq<nat>, cells: seq<Item<V>>, more: seq<Item<V>>)
    requires forall x | x in list :: x < |cells| && x < |more| && cells[x] == more[x]
    ensures ItemsAt(list, cells) == ItemsAt(list, more)
  {
    if list != [] {
      assert list == [list[0]] + list[1..];
      ItemsUpdated(list[1..], cells, more);
    }
  }

  lemma {:induction false} ItemsPrefix<V>(list: seq<nat>, cells: seq<Item<V>>)
    requires list != [] && NoDup(list) && forall x | x in list :: x < |cells|
    ensures Unlink(list, list[|list| - 1]) == list[..|list| - 1]
    ensures ItemsAt(list[..|list| - 1], cells) == ItemsAt(list, cells)[..|list| - 1]
  {
    var rest := list[1..];
    assert list == [list[0]] + rest;
    assert forall x | x in rest :: x in list;
    if rest != [] {
      ItemsPrefix(rest, cells);
      assert rest[|rest| - 1] == list[|list| - 1] && rest[|rest| - 1] in rest;
      assert list[..|list| - 1] == [list[0]] + rest[..|rest| - 1];
      assert list[..|list| - 1][1..] == rest[..|rest| - 1];
    }
  }

  lemma ExactOne<V>(s: MapAndList<V>, key: bytes) returns (id: nat)
    requires Exact(s)
    ensures OnlyOne(s.list, s.cells, id, key) && (id in s.list <==> key in s.entries)
    ensures key in s.entries ==> id == s.entries[key]
  {
    id := if key in s.entries then s.entries[key] else |s.cells|;
  }

  lemma FoundItem<V>(s: MapAndList<V>, key: bytes)
    requires Exact(s)
    ensures Find(ItemsOf(s), key) == if key in s.entries then Some(s.cells[s.entries[key]]) else None
  {
    var id := ExactOne(s, key);
    UnlinkItems(s.list, s.cells, id, key);
  }

  lemma DeleteItems<V>(s: MapAndList<V>, id: nat)
    requires Exact(s) && id in s.list
    ensures Loose(Delete(s, id)) && ItemsOf(Delete(s, id)) == Without(ItemsOf(s), s.cells[id].key)
  {
    DeleteLoose(s, id);
    var x := ExactOne(s, s.cells[id].key);
    UnlinkItems(s.list, s.cells, x, s.cells[id].key);
  }

  lemma FrontItems<V>(s: MapAndList<V>, id: nat)
    requires Exact(s) && id in s.list
    ensures Loose(Front(s, id)) && ItemsOf(Front(s, id)) == [s.cells[id]] + Without(ItemsOf(s), s.cells[id].key)
  {
    FrontLoose(s, id);
    DeleteItems(s, id);
    assert ToFront(s.list, id)[1..] == Unlink(s.list, id);
  }

  /** A new value and time stamp change no other item. */
  lemma UpdateItems<V>(s: MapAndList<V>, id: nat, it: Item<V>)
    requires Exact(s) && id in s.list && s.cells[id].key == it.key
    ensures Exact(Update(s, id, it))
    ensures Without(ItemsOf(Update(s, id, it)), it.key) == Without(ItemsOf(s), it.key)
  {
    var u := Update(s, id, it);
    UpdateLoose(s, id, it);
    DeleteItems(s, id);
    DeleteItems(u, id);
    ItemsUpdated(Unlink(s.list, id), s.cells, u.cells);
  }

  /** A Put on a key that is there. */
  lemma RefreshItems<V>(s: MapAndList<V>, id: nat, it: Item<V>)
    requires Exact(s) && id in s.list && s.cells[id].key == it.key
    ensures var t := Front(Update(s, id, it), id); Loose(t) && ItemsOf(t) == [it] + Without(ItemsOf(s), it.key)
  {
    UpdateItems(s, id, it);
    FrontItems(Update(s, id, it), id);
  }

  lemma InsertItems<V>(s: MapAndList<V>, it: Item<V>)
    requires Exact(s) && it.key !in s.entries
    ensures Exact(Insert(s, it)) && ItemsOf(Insert(s, it)) == [it] + Without(ItemsOf(s), it.key)
  {
    InsertLoose(s, it);
    var t := Insert(s, it);
    assert t.list[1..] == s.list;
    ItemsUpdated(s.list, s.cells, t.cells);
    var id := ExactOne(s, it.key);
    UnlinkItems(s.list, s.cells, id, it.key);
    UnlinkAbsent(s.list, id);
  }

  lemma {:induction false} UnlinkAbsent(list: seq<nat>, id: nat)
    requires id !in list
    ensures Unlink(list, id) == list
  {
    if list != [] {
      assert list == [list[0]] + list[1..];
      UnlinkAbsent(list[1..], id);
    }
  }

  lemma PutItems<V>(s: MapAndList<V>, it: Item<V>, max: nat)
    requires Exact(s) && |s.list| <= max && max > 0
    ensures Loose(Put(s, it, max))
    ensures ItemsOf(Put(s, it, max)) == LruModel.Put(ItemsOf(s), it.key, it.value, it.stamp, max)
  {
    PutLoose(s, it, max);
    if it.key in s.entries {
      RefreshItems(s, s.entries[it.key], it);
    } else {
      var t := Insert(s, it);
      InsertItems(s, it);
      LastLinked(t);
      ItemsPrefix(t.list, t.cells);
    }
  }

  /** The store part of a lookup that finds no goroutine in its way. */
  function GetStore<V>(s: MapAndList<V>, key: bytes, now: int, ttl: int): MapAndList<V>
    requires Loose(s)
  {
    if key !in s.entries then s
    else if now - s.cells[s.entries[key]].stamp > ttl then Delete(s, s.entries[key])
    else Front(s, s.entries[key])
  }

  lemma GetItems<V>(s: MapAndList<V>, key: bytes, now: int, ttl: int)
    requires Exact(s)
    ensures var t := GetStore(s, key, now, ttl);
      Exact(t) && |t.list| <= |s.list| && ItemsOf(t) == Get(ItemsOf(s), key, now, ttl).0
    ensures Get(ItemsOf(s), key, now, ttl).1 ==
      if key in s.entries && now - s.cells[s.entries[key]].stamp <= ttl
      then Some(s.cells[s.entries[key]].value) else None
  {
    FoundItem(s, key);
    if key in s.entries {
      var id := s.entries[key];
      if now - s.cells[id].stamp > ttl {
        DeleteLoose(s, id);
        DeleteExactIff(s, id);
        DeleteItems(s, id);
      } else {
        FrontLoose(s, id);
        FrontItems(s, id);
      }
    }
  }
}
