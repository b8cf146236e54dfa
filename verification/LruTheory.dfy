/** What the recency lists of internal/cache guarantee over whole traces. */
module LruTheory {
  import opened Bytes
  import opened Options
  import opened LruModel
  import opened Sets

  // ---- inclusion of a smaller cache in a larger one ----------------------------------

  /** s can be obtained from l by dropping items. */
  ghost predicate Sub<V>(s: seq<Item<V>>, l: seq<Item<V>>) {
    s == [] || (l != [] && ((s[0] == l[0] && Sub(s[1..], l[1..])) || Sub(s, l[1..])))
  }

  lemma WithoutHead<V>(s: seq<Item<V>>, key: bytes)
    requires s != []
    ensures Without(s, key) == if s[0].key == key then Without(s[1..], key) else [s[0]] + Without(s[1..], key)
  {
  }

  lemma {:induction false} SubWithout<V>(s: seq<Item<V>>, l: seq<Item<V>>, key: bytes)
    requires Sub(s, l)
    ensures Sub(Without(s, key), Without(l, key))
  {
    if s != [] {
      WithoutHead(l, key);
      if s[0] == l[0] && Sub(s[1..], l[1..]) {
        WithoutHead(s, key);
        SubWithout(s[1..], l[1..], key);
        SubCons(s[0], Without(s[1..], key), Without(l[1..], key));
      } else {
        SubWithout(s, l[1..], key);
        SubSkip(l[0], Without(s, key), Without(l[1..], key));
      }
    }
  }

  lemma SubCons<V>(x: Item<V>, s: seq<Item<V>>, l: seq<Item<V>>)
    requires Sub(s, l)
    ensures Sub([x] + s, [x] + l)
  {
  }

  lemma SubSkip<V>(x: Item<V>, s: seq<Item<V>>, l: seq<Item<V>>)
    requires Sub(s, l)
    ensures Sub(s, [x] + l)
  {
  }

  lemma {:induction false} SubFacts<V>(s: seq<Item<V>>, l: seq<Item<V>>)
    requires Sub(s, l)
    ensures |s| <= |l| && (forall it | it in s :: it in l) && KeysOf(s) <= KeysOf(l)
  {
    if s == [] {
    } else if s[0] == l[0] && Sub(s[1..], l[1..]) {
      SubFacts(s[1..], l[1..]);
    } else {
      SubFacts(s, l[1..]);
    }
    if s != [] {
      assert l == [l[0]] + l[1..] && s == [s[0]] + s[1..];
    }
    forall k | k in KeysOf(s) ensures k in KeysOf(l) {
      var i :| 0 <= i < |s| && s[i].key == k;
      assert s[i] in l;
      var j :| 0 <= j < |l| && l[j] == s[i];
      assert l[j].key == k;
    }
  }

  /** Dropping the last item of each side, or of the smaller side only. */
  lemma {:induction false} SubDropLast<V>(s: seq<Item<V>>, l: seq<Item<V>>)
    requires Sub(s, l) && s != []
    ensures l != [] && Sub(s[..|s| - 1], l[..|l| - 1]) && Sub(s[..|s| - 1], l)
  {
    var s', l' := s[..|s| - 1], l[..|l| - 1];
    if |s| > 1 {
      if s[0] == l[0] && Sub(s[1..], l[1..]) {
        SubDropLast(s[1..], l[1..]);
        assert s'[1..] == s[1..][..|s| - 2] && l'[1..] == l[1..][..|l| - 2];
      } else {
        SubDropLast(s, l[1..]);
        assert l'[1..] == l[1..][..|l| - 2];
      }
    }
  }

  /** The smaller list is included in the larger, and not shorter by more than the capacities
      differ, so that whenever the larger evicts the smaller does too. */
  ghost predicate Included<V>(s: seq<Item<V>>, l: seq<Item<V>>, m: nat, M: nat) {
    && WellFormed(s, m) && WellFormed(l, M) && Sub(s, l)
    && |l| - |s| <= M - m
  }

  lemma SharedItem<V>(s: seq<Item<V>>, l: seq<Item<V>>, key: bytes)
    requires Sub(s, l) && DistinctKeys(l) && key in KeysOf(s)
    ensures Find(l, key) == Find(s, key)
  {
  }

  lemma RemoveIncluded<V>(s: seq<Item<V>>, l: seq<Item<V>>, key: bytes, m: nat, M: nat)
    requires Included(s, l, m, M)
    ensures Included(Without(s, key), Without(l, key), m, M)
  {
    SubWithout(s, l, key);
    SubFacts(s, l);
    WithoutDistinct(s, key);
    WithoutDistinct(l, key);
  }

  lemma GetIncluded<V>(s: seq<Item<V>>, l: seq<Item<V>>, key: bytes, now: int, ttl: int, m: nat, M: nat)
    requires Included(s, l, m, M)
    ensures Included(Get(s, key, now, ttl).0, Get(l, key, now, ttl).0, m, M)
    ensures Get(s, key, now, ttl).1.Some? ==> Get(l, key, now, ttl).1 == Get(s, key, now, ttl).1
  {
    RemoveIncluded(s, l, key, m, M);
    SubFacts(s, l);
    WithoutDistinct(s, key);
    WithoutDistinct(l, key);
    if key in KeysOf(s) {
      SharedItem(s, l, key);
      var it := Find(s, key).value;
      SubCons(it, Without(s, key), Without(l, key));
      FrontDistinct(it, s);
      FrontDistinct(it, l);
    } else if key in KeysOf(l) {
      var it := Find(l, key).value;
      WithoutAbsent(s, key);
      SubSkip(it, s, Without(l, key));
      FrontDistinct(it, l);
    }
  }

  lemma PutIncluded<V>(s: seq<Item<V>>, l: seq<Item<V>>, key: bytes, value: V, now: int, m: nat, M: nat)
    requires Included(s, l, m, M) && 0 < m <= M
    ensures Included(Put(s, key, value, now, m), Put(l, key, value, now, M), m, M)
  {
    var x := Item(key, value, now);
    var s', l' := [x] + Without(s, key), [x] + Without(l, key);
    RemoveIncluded(s, l, key, m, M);
    SubCons(x, Without(s, key), Without(l, key));
    SubFacts(s, l);
    WithoutDistinct(s, key);
    WithoutDistinct(l, key);
    FrontDistinct(x, s);
    FrontDistinct(x, l);
    SubDropLast(s', l');
    assert |l'| > M ==> |s'| > m;
  }

  /** Any trace of Get and Put keeps the smaller cache included in the larger: every key it holds
      the larger holds too, with the same value and time stamp. */
  lemma {:induction false} RunIncluded<V>(
      s: seq<Item<V>>, l: seq<Item<V>>, trace: seq<Event<V>>, ttl: int, m: nat, M: nat)
    requires Included(s, l, m, M) && 0 < m <= M
    ensures Included(Run(s, trace, ttl, m), Run(l, trace, ttl, M), m, M)
  {
    if trace != [] {
      var front, e := trace[..|trace| - 1], trace[|trace| - 1];
      RunIncluded(s, l, front, ttl, m, M);
      match e {
        case GetEvent(k, now) => GetIncluded(Run(s, front, ttl, m), Run(l, front, ttl, M), k, now, ttl, m, M);
        case PutEvent(k, v, now) => PutIncluded(Run(s, front, ttl, m), Run(l, front, ttl, M), k, v, now, m, M);
      }
    }
  }

  /** From empty: wherever the smaller cache hits, the larger hits with the same value. */
  lemma LargerHits<V>(trace: seq<Event<V>>, key: bytes, now: int, ttl: int, m: nat, M: nat)
    requires 0 < m <= M
    ensures var small, large := Run([], trace, ttl, m), Run([], trace, ttl, M);
      Get(small, key, now, ttl).1.Some? ==> Get(large, key, now, ttl).1 == Get(small, key, now, ttl).1
  {
    RunIncluded<V>([], [], trace, ttl, m, M);
    GetIncluded(Run([], trace, ttl, m), Run([], trace, ttl, M), key, now, ttl, m, M);
  }

  // ---- recency -----------------------------------------------------------------------

  /** Whether an event touches its key: every Put does, a Get when it hits. */
  predicate Touch<V>(items: seq<Item<V>>, e: Event<V>, ttl: int) {
    e.PutEvent? || (Find(items, e.key).Some? && e.now - Find(items, e.key).value.stamp <= ttl)
  }

  /** What an event leaves, before eviction. */
  lemma StepShape<V>(items: seq<Item<V>>, e: Event<V>, ttl: int, max: nat)
    requires WellFormed(items, max)
    ensures Touch(items, e, ttl) ==> exists x: Item<V> ::
      x.key == e.key && (e.GetEvent? ==> x in items) &&
      Step(items, e, ttl, max) == Cap([x] + Without(items, e.key), max)
    ensures !Touch(items, e, ttl) ==> Step(items, e, ttl, max) == Without(items, e.key)
  {
    match e {
      case GetEvent(k, now) =>
        WithoutDistinct(items, k);
        if Find(items, k).None? {
          WithoutAbsent(items, k);
        } else {
          var x := Find(items, k).value;
          assert |[x] + Without(items, k)| <= max;
        }
      case PutEvent(k, v, now) =>
        assert Item(k, v, now).key == e.key;
    }
  }

  /** Position of the last event of the trace that touched the key; -1 when none did. */
  function LastTouch<V>(trace: seq<Event<V>>, key: bytes, ttl: int, max: nat): (r: int)
    ensures -1 <= r < |trace|
  {
    if trace == [] then -1
    else
      var front, e := trace[..|trace| - 1], trace[|trace| - 1];
      if e.key == key && Touch(Run([], front, ttl, max), e, ttl) then |trace| - 1
      else LastTouch(front, key, ttl, max)
  }

  ghost predicate ByRecency<V>(items: seq<Item<V>>, trace: seq<Event<V>>, ttl: int, max: nat) {
    && (forall i | 0 <= i < |items| :: LastTouch(trace, items[i].key, ttl, max) >= 0)
    && forall i, j | 0 <= i < j < |items| ::
      LastTouch(trace, items[i].key, ttl, max) > LastTouch(trace, items[j].key, ttl, max)
  }

  lemma DropByRecency<V>(items: seq<Item<V>>, d: nat, trace: seq<Event<V>>, ttl: int, max: nat)
    requires d < |items| && ByRecency(items, trace, ttl, max)
    ensures ByRecency(items[..d] + items[d + 1..], trace, ttl, max)
  {
  }

  lemma WithoutByRecency<V>(items: seq<Item<V>>, key: bytes, trace: seq<Event<V>>, ttl: int, max: nat)
    requires DistinctKeys(items) && ByRecency(items, trace, ttl, max)
    ensures ByRecency(Without(items, key), trace, ttl, max)
  {
    if key in KeysOf(items) {
      var i :| 0 <= i < |items| && items[i].key == key;
      WithoutAt(items, i);
      DropByRecency(items, i, trace, ttl, max);
    } else {
      WithoutAbsent(items, key);
    }
  }

  lemma CapByRecency<V>(items: seq<Item<V>>, trace: seq<Event<V>>, ttl: int, max: nat, cap: nat)
    requires ByRecency(items, trace, ttl, max)
    ensures ByRecency(Cap(items, cap), trace, ttl, max)
  {
  }

  lemma LaterByRecency<V>(items: seq<Item<V>>, trace: seq<Event<V>>, ttl: int, max: nat)
    requires trace != [] && ByRecency(items, trace[..|trace| - 1], ttl, max)
    requires Touch(Run([], trace[..|trace| - 1], ttl, max), trace[|trace| - 1], ttl) ==>
      forall i | 0 <= i < |items| :: items[i].key != trace[|trace| - 1].key
    ensures ByRecency(items, trace, ttl, max)
  {
  }

  lemma FrontByRecency<V>(x: Item<V>, items: seq<Item<V>>, trace: seq<Event<V>>, ttl: int, max: nat)
    requires trace != [] && ByRecency(items, trace, ttl, max)
    requires LastTouch(trace, x.key, ttl, max) == |trace| - 1
    requires forall i | 0 <= i < |items| :: LastTouch(trace, items[i].key, ttl, max) < |trace| - 1
    ensures ByRecency([x] + items, trace, ttl, max)
  {
  }

  /** After any trace from empty the list is in descending order of last touch. */
  lemma {:induction false} RecencyOrder<V>(trace: seq<Event<V>>, ttl: int, max: nat)
    requires max > 0
    ensures ByRecency(Run([], trace, ttl, max), trace, ttl, max)
  {
    if trace != [] {
      var front, e := trace[..|trace| - 1], trace[|trace| - 1];
      var items := Run<V>([], front, ttl, max);
      RecencyOrder(front, ttl, max);
      RunKeeps<V>([], front, ttl, max);
      StepShape(items, e, ttl, max);
      WithoutKeys(items, e.key);
      WithoutByRecency(items, e.key, front, ttl, max);
      var rest := Without(items, e.key);
      assert forall i | 0 <= i < |rest| :: rest[i] in rest;
      LaterByRecency(rest, trace, ttl, max);
      if Touch(items, e, ttl) {
        var x: Item<V> :| x.key == e.key && Step(items, e, ttl, max) == Cap([x] + rest, max);
        forall i | 0 <= i < |rest| ensures LastTouch(trace, rest[i].key, ttl, max) < |trace| - 1 {
          assert LastTouch(front, rest[i].key, ttl, max) < |front|;
        }
        FrontByRecency(x, rest, trace, ttl, max);
        CapByRecency([x] + rest, trace, ttl, max, max);
      }
    }
  }

  // ---- retention ---------------------------------------------------------------------

  function TouchedKeys<V>(items: seq<Item<V>>, trace: seq<Event<V>>, ttl: int, max: nat): set<bytes> {
    if trace == [] then {}
    else
      var front, e := trace[..|trace| - 1], trace[|trace| - 1];
      TouchedKeys(items, front, ttl, max) + (if Touch(Run(items, front, ttl, max), e, ttl) then {e.key} else {})
  }

  /** it is held, and only keys in ahead are more recent. */
  ghost predicate HeldBehind<V>(items: seq<Item<V>>, it: Item<V>, ahead: set<bytes>) {
    exists p :: 0 <= p < |items| && items[p] == it && forall q | 0 <= q < p :: items[q].key in ahead
  }

  lemma {:induction false} WithoutHeldBehind<V>(items: seq<Item<V>>, it: Item<V>, ahead: set<bytes>, key: bytes)
    requires HeldBehind(items, it, ahead) && it.key != key
    ensures HeldBehind(Without(items, key), it, ahead)
  {
    var p :| 0 <= p < |items| && items[p] == it && forall q | 0 <= q < p :: items[q].key in ahead;
    var r, rest := Without(items, key), Without(items[1..], key);
    if p == 0 {
      assert r[0] == it;
    } else {
      assert items[1..][p - 1] == it && forall q | 0 <= q < p - 1 :: items[1..][q].key in ahead;
      WithoutHeldBehind(items[1..], it, ahead, key);
      var p' :| 0 <= p' < |rest| && rest[p'] == it && forall q | 0 <= q < p' :: rest[q].key in ahead;
      if items[0].key == key {
        assert r == rest;
      } else {
        assert r[p' + 1] == it && forall q | 0 <= q < p' + 1 :: r[q].key in ahead;
      }
    }
  }

  lemma FrontHeldBehind<V>(x: Item<V>, items: seq<Item<V>>, it: Item<V>, ahead: set<bytes>)
    requires HeldBehind(items, it, ahead)
    ensures HeldBehind([x] + items, it, ahead + {x.key})
  {
    var p :| 0 <= p < |items| && items[p] == it && forall q | 0 <= q < p :: items[q].key in ahead;
    assert ([x] + items)[p + 1] == it;
  }

  /** Fewer keys ahead than the capacity: eviction does not reach the item. */
  lemma CapHeldBehind<V>(items: seq<Item<V>>, it: Item<V>, ahead: set<bytes>, max: nat)
    requires HeldBehind(items, it, ahead) && DistinctKeys(items) && |ahead| < max
    ensures HeldBehind(Cap(items, max), it, ahead)
  {
    var p :| 0 <= p < |items| && items[p] == it && forall q | 0 <= q < p :: items[q].key in ahead;
    DistinctCount(items[..p], ahead);
    assert Cap(items, max)[p] == it;
  }

  lemma {:induction false} DistinctCount<V>(items: seq<Item<V>>, keys: set<bytes>)
    requires DistinctKeys(items) && forall q | 0 <= q < |items| :: items[q].key in keys
    ensures |items| <= |keys|
  {
    if items != [] {
      DistinctCount(items[1..], keys - {items[0].key});
    }
  }

  lemma HeldIsFound<V>(items: seq<Item<V>>, it: Item<V>, ahead: set<bytes>)
    requires HeldBehind(items, it, ahead) && DistinctKeys(items)
    ensures Find(items, it.key) == Some(it)
  {
  }

  /** The trace neither replaces the item nor asks for it after it has expired. */
  ghost predicate Spares<V>(trace: seq<Event<V>>, it: Item<V>, ttl: int) {
    forall e | e in trace && e.key == it.key :: e.GetEvent? && e.now - it.stamp <= ttl
  }

  lemma StepHeldBehind<V>(items: seq<Item<V>>, e: Event<V>, it: Item<V>, ahead: set<bytes>, ttl: int, max: nat)
    requires WellFormed(items, max) && HeldBehind(items, it, ahead)
    requires e.key == it.key ==> e.GetEvent? && e.now - it.stamp <= ttl
    requires Touch(items, e, ttl) && e.key != it.key ==> |ahead + {e.key}| < max
    ensures HeldBehind(Step(items, e, ttl, max), it,
      ahead + (if Touch(items, e, ttl) && e.key != it.key then {e.key} else {}))
  {
    StepShape(items, e, ttl, max);
    if e.key == it.key {
      HeldIsFound(items, it, ahead);
      assert Step(items, e, ttl, max)[0] == it;
    } else {
      WithoutHeldBehind(items, it, ahead, e.key);
      if Touch(items, e, ttl) {
        var x: Item<V> :| x.key == e.key && Step(items, e, ttl, max) == Cap([x] + Without(items, e.key), max);
        FrontHeldBehind(x, Without(items, e.key), it, ahead);
        FrontDistinct(x, items);
        CapHeldBehind([x] + Without(items, e.key), it, ahead + {e.key}, max);
      } else {
        assert ahead + {} == ahead;
      }
    }
  }

  lemma {:induction false} RunHeldBehind<V>(items: seq<Item<V>>, trace: seq<Event<V>>, it: Item<V>, ttl: int, max: nat)
    requires WellFormed(items, max) && HeldBehind(items, it, {}) && Spares(trace, it, ttl)
    requires |TouchedKeys(items, trace, ttl, max) - {it.key}| < max
    ensures HeldBehind(Run(items, trace, ttl, max), it, TouchedKeys(items, trace, ttl, max) - {it.key})
  {
    if trace != [] {
      var front, e := trace[..|trace| - 1], trace[|trace| - 1];
      var before := TouchedKeys(items, front, ttl, max) - {it.key};
      var after := TouchedKeys(items, trace, ttl, max) - {it.key};
      assert e in trace;
      SubsetSize(before, after);
      RunHeldBehind(items, front, it, ttl, max);
      RunKeeps(items, front, ttl, max);
      var cur := Run(items, front, ttl, max);
      var now := before + (if Touch(cur, e, ttl) && e.key != it.key then {e.key} else {});
      assert now == after;
      StepHeldBehind(cur, e, it, before, ttl, max);
    } else {
      assert TouchedKeys(items, trace, ttl, max) - {it.key} == {};
    }
  }

  /** After Put(k, v) at t0, a Get(k) within ttl returns v as long as k is not put again and fewer
      than maxSize other keys have been touched in between. */
  lemma PutThenGet<V>(
      items: seq<Item<V>>, key: bytes, value: V, t0: int, trace: seq<Event<V>>, now: int, ttl: int, max: nat)
    requires WellFormed(items, max) && max > 0 && now - t0 <= ttl
    requires Spares(trace, Item(key, value, t0), ttl)
    requires |TouchedKeys(Put(items, key, value, t0, max), trace, ttl, max) - {key}| < max
    ensures Get(Run(Put(items, key, value, t0, max), trace, ttl, max), key, now, ttl).1 == Some(value)
  {
    var it := Item(key, value, t0);
    var start := Put(items, key, value, t0, max);
    StepKeeps(items, PutEvent(key, value, t0), ttl, max);
    assert start[0] == it;
    RunHeldBehind(start, trace, it, ttl, max);
    RunKeeps(start, trace, ttl, max);
    HeldIsFound(Run(start, trace, ttl, max), it, TouchedKeys(start, trace, ttl, max) - {key});
  }
}
