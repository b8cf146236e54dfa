/** ResultCache of internal/cache/result.go under every interleaving: Get carries an entry from one
    critical section to the next. */
module ResultSchedules {
  import opened Bytes
  import opened Options
  import opened LruModel
  import opened CacheStore

  /** Where a goroutine inside Get is: before counting a miss, with an entry in hand, with the
      verdict on its age, or past the last lock about to read the result. */
  datatype Local = Missed | Holding(id: nat) | Expired(id: nat) | Live(id: nat) | Returning(id: nat)

  /** A Get in flight: the key asked for and how far it is. */
  datatype Call = Call(key: bytes, at: Local)

  /** puts lists everything ever stored; started counts the Gets begun. */
  datatype Cache<+V> = Cache(
    store: MapAndList<V>, hits: nat, misses: nat, started: nat, calls: map<nat, Call>, puts: seq<(bytes, V)>)

  datatype Event<+V> =
    | Begin(g: nat, key: bytes)
    | CheckAge(g: nat, now: int)
    | Finish(g: nat)
    | Return(g: nat)
    | PutNow(key: bytes, value: V, now: int)

  /** One section of goroutine g, or a whole Put; an event that is not enabled changes nothing. */
  function Step<V>(c: Cache<V>, e: Event<V>, ttl: int, max: nat): Cache<V>
    requires Safe(c, max)
  {
    match e
    case Begin(g, key) =>
      if g in c.calls then c
      else
        var at := if key in c.store.entries then Holding(c.store.entries[key]) else Missed;
        c.(calls := c.calls[g := Call(key, at)], started := c.started + 1)
    case CheckAge(g, now) =>
      if g !in c.calls || !c.calls[g].at.Holding? then c
      else
        var id := c.calls[g].at.id;
        var at := if now - c.store.cells[id].stamp > ttl then Expired(id) else Live(id);
        c.(calls := c.calls[g := c.calls[g].(at := at)])
    case Finish(g) =>
      if g !in c.calls then c
      else (match c.calls[g].at
        case Missed => c.(misses := c.misses + 1, calls := c.calls - {g})
        case Expired(id) => c.(store := Delete(c.store, id), misses := c.misses + 1, calls := c.calls - {g})
        case Live(id) =>
          c.(store := Front(c.store, id), hits := c.hits + 1,
             calls := c.calls[g := c.calls[g].(at := Returning(id))])
        case _ => c)
    case Return(g) => if g in c.calls && c.calls[g].at.Returning? then c.(calls := c.calls - {g}) else c
    case PutNow(key, value, now) =>
      c.(store := CacheStore.Put(c.store, Item(key, value, now), max), puts := c.puts + [(key, value)])
  }

  function Uncounted(calls: map<nat, Call>): set<nat> { set g | g in calls && !calls[g].at.Returning? }

  ghost predicate KnownCall<V>(s: MapAndList<V>, c: Call) {
    c.at.Missed? || (c.at.id < |s.cells| && s.cells[c.at.id].key == c.key)
  }

  ghost predicate Stored<V>(s: MapAndList<V>, puts: seq<(bytes, V)>) {
    forall id | 0 <= id < |s.cells| :: (s.cells[id].key, s.cells[id].value) in puts
  }

  /** What holds in every schedule. */
  ghost predicate Safe<V>(c: Cache<V>, max: nat) {
    && Loose(c.store) && |c.store.list| <= max
    && (forall g | g in c.calls :: KnownCall(c.store, c.calls[g]))
    && Stored(c.store, c.puts)
    && c.hits + c.misses + |Uncounted(c.calls)| == c.started
  }

  lemma UncountedWithout(calls: map<nat, Call>, g: nat)
    requires g in calls
    ensures Uncounted(calls - {g}) == Uncounted(calls) - {g}
    ensures |Uncounted(calls - {g})| == |Uncounted(calls)| - (if calls[g].at.Returning? then 0 else 1)
  {
  }

  lemma UncountedUpdate(calls: map<nat, Call>, g: nat, call: Call)
    ensures var was := if g in calls && !calls[g].at.Returning? then 1 else 0;
      |Uncounted(calls[g := call])| == |Uncounted(calls)| - was + (if call.at.Returning? then 0 else 1)
  {
    var rest := Uncounted(calls) - {g};
    assert Uncounted(calls[g := call]) == if call.at.Returning? then rest else rest + {g};
  }

  lemma PutCells<V>(s: MapAndList<V>, it: Item<V>, max: nat)
    requires Loose(s) && |s.list| <= max
    ensures var t := CacheStore.Put(s, it, max);
      |t.cells| >= |s.cells|
      && (forall id | 0 <= id < |s.cells| :: t.cells[id].key == s.cells[id].key)
      && forall id | 0 <= id < |t.cells| :: t.cells[id] == it || (id < |s.cells| && t.cells[id] == s.cells[id])
  {
  }

  lemma PutKeepsStored<V>(s: MapAndList<V>, puts: seq<(bytes, V)>, it: Item<V>, max: nat)
    requires Loose(s) && |s.list| <= max && Stored(s, puts)
    ensures Stored(CacheStore.Put(s, it, max), puts + [(it.key, it.value)])
  {
  }

  lemma BeginSafe<V>(c: Cache<V>, g: nat, key: bytes, ttl: int, max: nat)
    requires Safe(c, max)
    ensures Safe(Step(c, Begin(g, key), ttl, max), max)
  {
    var at := if key in c.store.entries then Holding(c.store.entries[key]) else Missed;
    UncountedUpdate(c.calls, g, Call(key, at));
  }

  lemma CheckSafe<V>(c: Cache<V>, g: nat, now: int, ttl: int, max: nat)
    requires Safe(c, max)
    ensures Safe(Step(c, CheckAge(g, now), ttl, max), max)
  {
    if g in c.calls && c.calls[g].at.Holding? {
      assert KnownCall(c.store, c.calls[g]);
      UncountedUpdate(c.calls, g, Step(c, CheckAge(g, now), ttl, max).calls[g]);
    }
  }

  lemma CallsStayKnown<V>(s: MapAndList<V>, t: MapAndList<V>, calls: map<nat, Call>)
    requires forall g | g in calls :: KnownCall(s, calls[g])
    requires |t.cells| >= |s.cells| && forall id | 0 <= id < |s.cells| :: t.cells[id].key == s.cells[id].key
    ensures forall g | g in calls :: KnownCall(t, calls[g])
  {
  }

  lemma PutSafe<V>(c: Cache<V>, it: Item<V>, ttl: int, max: nat)
    requires Safe(c, max)
    ensures Safe(Step(c, PutNow(it.key, it.value, it.stamp), ttl, max), max)
  {
    var t := CacheStore.Put(c.store, it, max);
    PutLoose(c.store, it, max);
    PutCells(c.store, it, max);
    CallsStayKnown(c.store, t, c.calls);
    PutKeepsStored(c.store, c.puts, it, max);
    SafeWith(c, t, c.puts + [(it.key, it.value)], max);
  }

  lemma SafeWith<V>(c: Cache<V>, t: MapAndList<V>, puts: seq<(bytes, V)>, max: nat)
    requires Safe(c, max) && Loose(t) && |t.list| <= max && Stored(t, puts)
    requires forall g | g in c.calls :: KnownCall(t, c.calls[g])
    ensures Safe(c.(store := t, puts := puts), max)
  {
  }

  lemma StepSafe<V>(c: Cache<V>, e: Event<V>, ttl: int, max: nat)
    requires Safe(c, max)
    ensures Safe(Step(c, e, ttl, max), max)
  {
    match e {
      case Begin(g, key) => BeginSafe(c, g, key, ttl, max);
      case CheckAge(g, now) => CheckSafe(c, g, now, ttl, max);
      case Finish(g) =>
        if g in c.calls {
          FinishSafe(c, g, ttl, max);
        }
      case Return(g) =>
        if g in c.calls {
          UncountedWithout(c.calls, g);
        }
      case PutNow(key, value, now) => PutSafe(c, Item(key, value, now), ttl, max);
    }
  }

  lemma FinishSafe<V>(c: Cache<V>, g: nat, ttl: int, max: nat)
    requires Safe(c, max) && g in c.calls
    ensures Safe(Step(c, Finish(g), ttl, max), max)
  {
    UncountedWithout(c.calls, g);
    match c.calls[g].at {
      case Missed =>
      case Expired(id) => DeleteLoose(c.store, id);
      case Live(id) =>
        FrontLoose(c.store, id);
        UncountedUpdate(c.calls, g, c.calls[g].(at := Returning(id)));
      case _ =>
    }
  }

  function Start<V>(): Cache<V> { Cache(MapAndList(EMPTY_MAP, [], []), 0, 0, 0, map[], []) }

  ghost function After<V>(schedule: seq<Event<V>>, ttl: int, max: nat): (c: Cache<V>)
    ensures Safe(c, max)
  {
    if schedule == [] then Start()
    else
      var before := After(schedule[..|schedule| - 1], ttl, max);
      StepSafe(before, schedule[|schedule| - 1], ttl, max);
      Step(before, schedule[|schedule| - 1], ttl, max)
  }

  /** In every schedule: each map entry is linked under its own key, the map is no larger than the
      list and the list no larger than the capacity, every Get is counted once, and a Get returns
      only what was put under its key. */
  lemma ResultCacheSafe<V>(schedule: seq<Event<V>>, ttl: int, max: nat)
    ensures var c := After(schedule, ttl, max);
      && Loose(c.store) && |c.store.entries| <= |c.store.list| <= max
      && c.hits + c.misses + |Uncounted(c.calls)| == c.started
      && forall g | g in c.calls && c.calls[g].at.Returning? ::
        (c.calls[g].key, c.store.cells[c.calls[g].at.id].value) in c.puts
  {
    var c := After(schedule, ttl, max);
    MapFitsList(c.store);
    forall g | g in c.calls && c.calls[g].at.Returning?
      ensures (c.calls[g].key, c.store.cells[c.calls[g].at.id].value) in c.puts
    {
      assert KnownCall(c.store, c.calls[g]);
    }
  }

  /** The three sections of a Get by goroutine g, one after the other. */
  ghost predicate Undisturbed<V>(
      c: Cache<V>, c1: Cache<V>, c2: Cache<V>, c3: Cache<V>, g: nat, key: bytes, now: int, ttl: int, max: nat)
  {
    && Safe(c, max) && Exact(c.store) && g !in c.calls
    && c1 == Step(c, Begin(g, key), ttl, max)
    && Safe(c1, max) && c2 == Step(c1, CheckAge(g, now), ttl, max)
    && Safe(c2, max) && c3 == Step(c2, Finish(g), ttl, max)
  }

  lemma AfterBegin<V>(c: Cache<V>, g: nat, key: bytes, ttl: int, max: nat)
    requires Safe(c, max) && g !in c.calls
    ensures var c1 := Step(c, Begin(g, key), ttl, max);
      c1.store == c.store && g in c1.calls
      && c1.calls[g].at == (if key in c.store.entries then Holding(c.store.entries[key]) else Missed)
  {
  }

  lemma AfterCheck<V>(c: Cache<V>, g: nat, now: int, ttl: int, max: nat)
    requires Safe(c, max) && g in c.calls
    ensures var c2 := Step(c, CheckAge(g, now), ttl, max);
      c2.store == c.store && g in c2.calls
      && (c.calls[g].at.Holding? ==> (
            var id := c.calls[g].at.id;
            id < |c.store.cells|
            && c2.calls[g].at == if now - c.store.cells[id].stamp > ttl then Expired(id) else Live(id)))
      && (!c.calls[g].at.Holding? ==> c2.calls[g].at == c.calls[g].at)
  {
    assert KnownCall(c.store, c.calls[g]);
  }

  /** What the last section does, and what it leaves the goroutine to return. */
  lemma AfterFinish<V>(c: Cache<V>, g: nat, ttl: int, max: nat)
    requires Safe(c, max) && g in c.calls && (c.calls[g].at.Missed? || c.calls[g].at.Expired? || c.calls[g].at.Live?)
    ensures var c3, at := Step(c, Finish(g), ttl, max), c.calls[g].at;
      && (at.Missed? ==> c3.store == c.store && Answer(c3, g) == None)
      && (at.Expired? ==> at.id < |c.store.cells| && c3.store == Delete(c.store, at.id) && Answer(c3, g) == None)
      && (at.Live? ==> (at.id < |c.store.cells| && c3.store == Front(c.store, at.id)
                        && Answer(c3, g) == Some(c.store.cells[at.id].value)))
  {
    assert KnownCall(c.store, c.calls[g]);
  }

  /** What is left of the store after those sections, straight from the state before them. */
  lemma UndisturbedStore<V>(
      c: Cache<V>, c1: Cache<V>, c2: Cache<V>, c3: Cache<V>, g: nat, key: bytes, now: int, ttl: int, max: nat)
    requires Undisturbed(c, c1, c2, c3, g, key, now, ttl, max)
    ensures c3.store == GetStore(c.store, key, now, ttl)
    ensures Answer(c3, g) ==
      if key in c.store.entries && now - c.store.cells[c.store.entries[key]].stamp <= ttl
      then Some(c.store.cells[c.store.entries[key]].value) else None
  {
    AfterBegin(c, g, key, ttl, max);
    AfterCheck(c1, g, now, ttl, max);
    AfterFinish(c2, g, ttl, max);
  }

  /** What goroutine g is about to return: nothing when its Get is over already. */
  function Answer<V>(c: Cache<V>, g: nat): Option<V> {
    if g in c.calls && c.calls[g].at.Returning? && c.calls[g].at.id < |c.store.cells|
    then Some(c.store.cells[c.calls[g].at.id].value) else None
  }

  /** A Get that runs undisturbed is the Get of the plain recency list. */
  lemma UndisturbedGet<V>(
      c: Cache<V>, c1: Cache<V>, c2: Cache<V>, c3: Cache<V>, g: nat, key: bytes, now: int, ttl: int, max: nat)
    requires Undisturbed(c, c1, c2, c3, g, key, now, ttl, max)
    ensures Exact(c3.store) && ItemsOf(c3.store) == Get(ItemsOf(c.store), key, now, ttl).0
    ensures Get(ItemsOf(c.store), key, now, ttl).1 == Answer(c3, g)
  {
    UndisturbedStore(c, c1, c2, c3, g, key, now, ttl, max);
    GetItems(c.store, key, now, ttl);
  }

  /** The section that ends a Get which found its entry too old, when somebody else has unlinked
      that entry and a newer one is filed under its key. */
  ghost predicate Loses<V>(c: Cache<V>, e: Event<V>) {
    && e.Finish? && e.g in c.calls && c.calls[e.g].at.Expired?
    && var id := c.calls[e.g].at.id;
       id !in c.store.list && id < |c.store.cells| && c.store.cells[id].key in c.store.entries
  }

  /** That section is the only one that can put map and list out of step, and it always does. */
  lemma StepExactIff<V>(c: Cache<V>, e: Event<V>, ttl: int, max: nat)
    requires Safe(c, max) && Exact(c.store)
    ensures Exact(Step(c, e, ttl, max).store) <==> !Loses(c, e)
  {
    match e {
      case Finish(g) =>
        if g in c.calls {
          FinishExactIff(c, g, ttl, max);
        }
      case PutNow(key, value, now) => PutLoose(c.store, Item(key, value, now), max);
      case _ =>
    }
  }

  lemma FinishExactIff<V>(c: Cache<V>, g: nat, ttl: int, max: nat)
    requires Safe(c, max) && Exact(c.store) && g in c.calls
    ensures Exact(Step(c, Finish(g), ttl, max).store) <==> !Loses(c, Finish(g))
  {
    assert KnownCall(c.store, c.calls[g]);
    match c.calls[g].at {
      case Expired(id) => DeleteExactIff(c.store, id);
      case Live(id) => FrontLoose(c.store, id);
      case _ =>
    }
  }

  /** So a schedule without such a section keeps the cache exact all the way. */
  lemma {:induction false} ExactUntilLost<V>(schedule: seq<Event<V>>, ttl: int, max: nat)
    requires forall n | 0 <= n < |schedule| :: !Loses(After(schedule[..n], ttl, max), schedule[n])
    ensures Exact(After(schedule, ttl, max).store)
  {
    if schedule != [] {
      var front, last := schedule[..|schedule| - 1], |schedule| - 1;
      forall n | 0 <= n < |front| ensures !Loses(After(front[..n], ttl, max), front[n]) {
        assert front[..n] == schedule[..n];
      }
      ExactUntilLost(front, ttl, max);
      assert !Loses(After(schedule[..last], ttl, max), schedule[last]);
      StepExactIff(After(front, ttl, max), schedule[last], ttl, max);
    }
  }

  /** The cache after n sections, and whether the next one loses its exactness. */
  ghost predicate ExactAt<V>(schedule: seq<Event<V>>, n: nat, ttl: int, max: nat)
    requires n <= |schedule|
  {
    Exact(After(schedule[..n], ttl, max).store)
  }

  ghost predicate LosesAt<V>(schedule: seq<Event<V>>, n: nat, ttl: int, max: nat)
    requires n < |schedule|
  {
    Loses(After(schedule[..n], ttl, max), schedule[n])
  }

  lemma PrefixExact<V>(schedule: seq<Event<V>>, n: nat, ttl: int, max: nat)
    requires n <= |schedule| && forall k | 0 <= k < |schedule| :: !LosesAt(schedule, k, ttl, max)
    ensures ExactAt(schedule, n, ttl, max)
  {
    var front := schedule[..n];
    forall k | 0 <= k < n ensures !Loses(After(front[..k], ttl, max), front[k]) {
      assert front[..k] == schedule[..k];
      assert !LosesAt(schedule, k, ttl, max);
    }
    ExactUntilLost(front, ttl, max);
  }

  lemma ExactThenNotLost<V>(schedule: seq<Event<V>>, n: nat, ttl: int, max: nat)
    requires n < |schedule| && ExactAt(schedule, n, ttl, max) && ExactAt(schedule, n + 1, ttl, max)
    ensures !LosesAt(schedule, n, ttl, max)
  {
    var longer := schedule[..n + 1];
    assert longer[..n] == schedule[..n];
    StepExactIff(After(schedule[..n], ttl, max), schedule[n], ttl, max);
  }

  /** A schedule keeps the cache exact all the way exactly when it has no such section. */
  lemma ExactAllTheWayIff<V>(schedule: seq<Event<V>>, ttl: int, max: nat)
    ensures (forall n | 0 <= n <= |schedule| :: ExactAt(schedule, n, ttl, max))
      <==> (forall n | 0 <= n < |schedule| :: !LosesAt(schedule, n, ttl, max))
  {
    if forall n | 0 <= n < |schedule| :: !LosesAt(schedule, n, ttl, max) {
      forall n | 0 <= n <= |schedule| ensures ExactAt(schedule, n, ttl, max) {
        PrefixExact(schedule, n, ttl, max);
      }
    }
    if forall n | 0 <= n <= |schedule| :: ExactAt(schedule, n, ttl, max) {
      forall n | 0 <= n < |schedule| ensures !LosesAt(schedule, n, ttl, max) {
        assert ExactAt(schedule, n, ttl, max) && ExactAt(schedule, n + 1, ttl, max);
        ExactThenNotLost(schedule, n, ttl, max);
      }
    }
  }

  const K: bytes := [107]
  const STALE: Item<int> := Item(K, 1, 0)
  const FRESH: Item<int> := Item(K, 2, 100)

  /** Two Gets that both saw the same expired entry, with a Put between their last sections. */
  const LOST: seq<Event<int>> := [
    PutNow(K, 1, 0), Begin(0, K), Begin(1, K), CheckAge(0, 50), CheckAge(1, 50),
    Finish(0), PutNow(K, 2, 100), Finish(1)]

  /** One more section of that schedule. */
  lemma OneSection(n: nat, a: Cache<int>, b: Cache<int>)
    requires n < |LOST| && After(LOST[..n], 10, 5) == a && Step(a, LOST[n], 10, 5) == b
    ensures After(LOST[..n + 1], 10, 5) == b
  {
    assert LOST[..n + 1][..n] == LOST[..n];
  }

  /** After both Gets have begun: the store unchanged, the two goroutines this far. */
  function Waiting(one: Local, two: Local): Cache<int> {
    Cache(MapAndList(map[K := 0], [0], [STALE]), 0, 0, 2, map[0 := Call(K, one)][1 := Call(K, two)], [(K, 1)])
  }

  /** The first value stored, and nobody asking yet. */
  function Filled(): Cache<int> { Cache(MapAndList(map[K := 0], [0], [STALE]), 0, 0, 0, map[], [(K, 1)]) }

  lemma LostFilled()
    ensures After(LOST[..1], 10, 5) == Filled()
  {
    OneSection(0, Start(), Filled());
  }

  lemma LostAsked()
    ensures After(LOST[..2], 10, 5) == Filled().(started := 1, calls := map[0 := Call(K, Holding(0))])
  {
    LostFilled();
    var b := Filled().(started := 1, calls := map[0 := Call(K, Holding(0))]);
    assert Filled().calls[0 := Call(K, Holding(0))] == b.calls;
    OneSection(1, Filled(), b);
  }

  lemma LostBegun()
    ensures After(LOST[..3], 10, 5) == Waiting(Holding(0), Holding(0))
  {
    LostAsked();
    var a := Filled().(started := 1, calls := map[0 := Call(K, Holding(0))]);
    OneSection(2, a, Waiting(Holding(0), Holding(0)));
  }

  lemma LostChecked()
    ensures After(LOST[..4], 10, 5) == Waiting(Expired(0), Holding(0))
  {
    LostBegun();
    var a, b := Waiting(Holding(0), Holding(0)), Waiting(Expired(0), Holding(0));
    assert a.calls[0 := Call(K, Expired(0))] == b.calls;
    OneSection(3, a, b);
  }

  lemma LostExpired()
    ensures After(LOST[..5], 10, 5) == Waiting(Expired(0), Expired(0))
  {
    LostChecked();
    var a, b := Waiting(Expired(0), Holding(0)), Waiting(Expired(0), Expired(0));
    assert a.calls[1 := Call(K, Expired(0))] == b.calls;
    OneSection(4, a, b);
  }

  /** One Get has dropped the entry, the other still holds it. */
  function Dropped(): Cache<int> {
    Cache(MapAndList(EMPTY_MAP, [], [STALE]), 0, 1, 2, map[1 := Call(K, Expired(0))], [(K, 1)])
  }

  lemma FinishExpired<V>(c: Cache<V>, g: nat, id: nat, ttl: int, max: nat)
    requires Safe(c, max) && g in c.calls && c.calls[g].at == Expired(id) && id < |c.store.cells|
    ensures Step(c, Finish(g), ttl, max) ==
      c.(store := Delete(c.store, id), misses := c.misses + 1, calls := c.calls - {g})
  {
  }

  lemma DeleteOnly()
    ensures Delete(MapAndList(map[K := 0], [0], [STALE]), 0) == MapAndList(EMPTY_MAP, [], [STALE])
  {
    assert map[K := 0 as nat] - {K} == EMPTY_MAP;
  }

  lemma LostDropped()
    ensures After(LOST[..6], 10, 5) == Dropped()
  {
    LostExpired();
    var a := Waiting(Expired(0), Expired(0));
    assert a.calls - {0} == Dropped().calls;
    DeleteOnly();
    FinishExpired(a, 0, 0, 10, 5);
    OneSection(5, a, Dropped());
  }

  lemma LostRefilled()
    ensures After(LOST[..7], 10, 5) ==
      Dropped().(store := MapAndList(map[K := 1], [1], [STALE, FRESH]), puts := [(K, 1), (K, 2)])
  {
    LostDropped();
    var b := Dropped().(store := MapAndList(map[K := 1], [1], [STALE, FRESH]), puts := [(K, 1), (K, 2)]);
    OneSection(6, Dropped(), b);
  }

  /** Exactness is a sequential fact only: this schedule is exact until its last section, which
      leaves a linked entry that no map key leads to. */
  lemma ExactnessCanBeLost()
    ensures Exact(After(LOST[..7], 10, 5).store) && !Exact(After(LOST, 10, 5).store)
  {
    LostRefilled();
    var a := After(LOST[..7], 10, 5);
    OneSection(7, a, Step(a, LOST[7], 10, 5));
    assert LOST[..8] == LOST;
    assert Exact(a.store);
    DeleteExactIff(a.store, 0);
  }
}
