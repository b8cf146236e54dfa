/** The doubly linked recency list behind the caches: container/list as the caches use it, a ring
    closed by a sentinel. Removing or moving an element that is no longer linked does nothing. */
module LinkedList {
  import opened Bytes

  /** A cache entry and its place in the list. */
  class Entry<V> {
    const key: bytes
    var value: V
    var stamp: int
    var elem: Element?<V>

    constructor (key: bytes, value: V, stamp: int)
      ensures this.key == key && this.value == value && this.stamp == stamp
    {
      this.key, this.value, this.stamp, this.elem := key, value, stamp, null;
    }
  }

  class Element<V> {
    var next: Element?<V>
    var prev: Element?<V>
    var list: List?<V>
    const entry: Entry?<V>

    constructor (entry: Entry?<V>)
      ensures this.entry == entry && list == null
    {
      this.entry, list, next, prev := entry, null, null, null;
    }
  }

  class List<V> {
    const root: Element<V>
    var len: nat
    ghost var elems: seq<Element<V>>

    /** Distinct elements, none of them the sentinel. */
    ghost predicate Apart(s: seq<Element<V>>) {
      root !in s && forall i, j | 0 <= i < j < |s| :: s[i] != s[j]
    }

    ghost predicate Valid()
      reads this, root, elems
    {
      && len == |elems| && root.list == null && Apart(elems)
      && (forall i | 0 <= i < |elems| :: elems[i].list == this)
      && root.next == (if elems == [] then root else elems[0])
      && root.prev == (if elems == [] then root else elems[|elems| - 1])
      && Inner(elems)
      && (elems != [] ==> elems[0].prev == root && elems[|elems| - 1].next == root)
    }

    /** Neighbours within the list point at each other; the sentinel closes the ring. */
    ghost predicate Inner(s: seq<Element<V>>)
      reads s
    {
      && (forall i {:trigger s[i].next} | 0 <= i < |s| - 1 :: s[i].next == s[i + 1])
      && (forall i {:trigger s[i].prev} | 1 <= i < |s| :: s[i].prev == s[i - 1])
    }

    constructor ()
      ensures Valid() && elems == [] && fresh(root)
    {
      root := new Element(null);
      len, elems := 0, [];
      new;
      root.next, root.prev := root, root;
    }

    /** Makes the neighbours of e skip it. */
    static method Bypass(e: Element<V>)
      requires e.prev != null && e.next != null && e.prev != e && e.next != e
      modifies e, e.prev`next, e.next`prev
      ensures old(e.prev).next == old(e.next) && old(e.next).prev == old(e.prev)
      ensures e.list == null
    {
      e.prev.next := e.next;
      e.next.prev := e.prev;
      e.next, e.prev, e.list := null, null, null;
    }

    /** Takes the i-th element out of the ring. */
    method Unlink(e: Element<V>, ghost i: nat)
      requires Valid() && i < |elems| && elems[i] == e
      modifies this, root, elems
      ensures Valid() && elems == old(elems)[..i] + old(elems)[i + 1..]
      ensures e.list == null
    {
      ghost var s := elems;
      ApartWithout(s, i);
      Bypass(e);
      len := len - 1;
      elems := s[..i] + s[i + 1..];
      InnerJoined(s, i);
    }

    /** Two stretches with proper neighbours, joined where one element was left out. */
    lemma InnerJoined(s: seq<Element<V>>, i: nat)
      requires i < |s| && Inner(s[..i]) && Inner(s[i + 1..])
      requires 0 < i < |s| - 1 ==> s[i - 1].next == s[i + 1] && s[i + 1].prev == s[i - 1]
      ensures Inner(s[..i] + s[i + 1..])
    {
      var t := s[..i] + s[i + 1..];
      forall j | 0 <= j < |t| - 1 ensures t[j].next == t[j + 1] && t[j + 1].prev == t[j] {
        if j + 1 < i {
          assert t[j] == s[..i][j] && t[j + 1] == s[..i][j + 1];
        } else if j >= i {
          assert t[j] == s[i + 1..][j - i] && t[j + 1] == s[i + 1..][j + 1 - i];
        }
      }
    }

    lemma ApartWithout(s: seq<Element<V>>, i: nat)
      requires i < |s| && Apart(s)
      ensures Apart(s[..i] + s[i + 1..])
      ensures forall j | 0 <= j < |s| && j != i :: s[j] != s[i]
    {
    }

    /** Puts an unlinked element at the front of the ring. */
    method LinkFront(e: Element<V>)
      requires Valid() && e !in elems && e != root
      modifies this, root, elems, e
      ensures Valid() && elems == [e] + old(elems)
    {
      e.prev := root;
      e.next := root.next;
      root.next.prev := e;
      root.next := e;
      e.list := this;
      len := len + 1;
      elems := [e] + elems;
    }

    /** The caller's assignment of the new element to the entry is part of the step. */
    method PushFront(entry: Entry<V>) returns (e: Element<V>)
      requires Valid()
      modifies this, root, elems, entry`elem
      ensures Valid() && fresh(e) && e.entry == entry && entry.elem == e
      ensures elems == [e] + old(elems)
    {
      e := new Element(entry);
      entry.elem := e;
      LinkFront(e);
    }

    /** i is the position of e when it is linked here. */
    method Remove(e: Element<V>, ghost i: nat)
      requires Valid() && (e.list == this ==> i < |elems| && elems[i] == e)
      modifies this, root, elems
      ensures Valid()
      ensures elems == if old(e.list) == this then old(elems)[..i] + old(elems)[i + 1..] else old(elems)
      ensures old(e.list) == this ==> e.list == null
    {
      if e.list == this {
        Unlink(e, i);
      }
    }

    method MoveToFront(e: Element<V>, ghost i: nat)
      requires Valid() && (e.list == this ==> i < |elems| && elems[i] == e)
      modifies this, root, elems
      ensures Valid()
      ensures elems == if old(e.list) == this then [e] + (old(elems)[..i] + old(elems)[i + 1..]) else old(elems)
    {
      if e.list == this && root.next != e {
        Unlink(e, i);
        LinkFront(e);
      }
    }

    method Back() returns (e: Element?<V>)
      requires Valid()
      ensures e == if elems == [] then null else elems[|elems| - 1]
    {
      if len == 0 {
        return null;
      }
      return root.prev;
    }
  }
}
