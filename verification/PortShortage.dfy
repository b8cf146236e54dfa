/** When a test round loses results: the exact condition on the ports that can be bound, the number
    of configurations and cancellation. */
module PortShortage {
  import opened Options
  import opened Ports
  import opened Sets
  import opened Sorting
  import opened Workers

  type Binding = int -> bool

  /** A schedule that allocates only under bindings that may occur, and gives up only when the
      context may be done. */
  ghost predicate Allowed(schedule: seq<Event>, may: Binding -> bool, cancelled: bool) {
    forall e | e in schedule :: (e.GiveUp? ==> cancelled) && (e.Allocate? ==> may(e.bindable))
  }

  /** Under every binding that may occur there are ports for all the workers that can be at work,
      and there is no cancellation unless there is nothing to test. */
  ghost predicate Ample(n: nat, parallel: nat, base: int, limit: int, may: Binding -> bool, cancelled: bool) {
    && (cancelled ==> n == 0)
    && forall b: Binding | may(b) :: Fits(n, parallel, base, limit, b)
  }

  lemma AfterMore(schedule: seq<Event>, e: Event, n: nat, base: int, limit: int, parallel: nat)
    ensures After(schedule + [e], n, base, limit, parallel) ==
      Step(After(schedule, n, base, limit, parallel), e, parallel)
  {
    assert (schedule + [e])[..|schedule|] == schedule;
  }

  // ---- ample ports are enough --------------------------------------------------------

  lemma {:induction false} AmpleDropsNone(
      schedule: seq<Event>, n: nat, base: int, limit: int, parallel: nat, may: Binding -> bool, cancelled: bool)
    requires Ample(n, parallel, base, limit, may, cancelled) && Allowed(schedule, may, cancelled)
    ensures NoneDropped(After(schedule, n, base, limit, parallel))
  {
    if schedule != [] && n > 0 {
      var front, e := schedule[..|schedule| - 1], schedule[|schedule| - 1];
      assert schedule == front + [e];
      AmpleDropsNone(front, n, base, limit, parallel, may, cancelled);
      var p := After(front, n, base, limit, parallel);
      AfterSafe(front, n, base, limit, parallel);
      if e.Allocate? {
        FewerBlocked(p.ports, e.bindable);
      }
      StepDropsNone(p, e, parallel);
    }
  }

  // ---- and nothing less is -----------------------------------------------------------

  function Acquires(k: nat): (r: seq<Event>)
    ensures |r| == k
  {
    if k == 0 then [] else Acquires(k - 1) + [Acquire(k - 1)]
  }

  /** As many workers as can get a token have one; k of them then ask for a port in turn. */
  function Rush(w: nat, k: nat, b: Binding): seq<Event> {
    if k == 0 then Acquires(w) else Rush(w, k - 1, b) + [Allocate(k - 1, b)]
  }

  lemma {:induction false} AcquiresAllowed(k: nat, may: Binding -> bool, cancelled: bool)
    ensures Allowed(Acquires(k), may, cancelled)
  {
    if k > 0 {
      AcquiresAllowed(k - 1, may, cancelled);
    }
  }

  lemma {:induction false} RushAllowed(w: nat, k: nat, b: Binding, may: Binding -> bool, cancelled: bool)
    requires may(b)
    ensures Allowed(Rush(w, k, b), may, cancelled)
  {
    if k == 0 {
      AcquiresAllowed(w, may, cancelled);
    } else {
      RushAllowed(w, k - 1, b, may, cancelled);
    }
  }

  ghost predicate Acquired(p: Pool, k: nat) {
    p.tokens == k && forall i | 0 <= i < |p.workers| :: p.workers[i] == if i < k then HasToken else Waiting
  }

  lemma AcquireStep(p: Pool, k: nat, parallel: nat)
    requires Acquired(p, k) && k < |p.workers| && k < parallel
    ensures Acquired(Step(p, Acquire(k), parallel), k + 1)
    ensures Step(p, Acquire(k), parallel).ports == p.ports
  {
  }

  lemma {:induction false} AfterAcquires(k: nat, n: nat, base: int, limit: int, parallel: nat)
    requires k <= Width(n, parallel)
    ensures var p := After(Acquires(k), n, base, limit, parallel); Acquired(p, k) && p.ports == NewPorts(base, limit)
  {
    if k > 0 {
      var front := Acquires(k - 1);
      AfterAcquires(k - 1, n, base, limit, parallel);
      AfterMore(front, Acquire(k - 1), n, base, limit, parallel);
      AcquireStep(After(front, n, base, limit, parallel), k - 1, parallel);
    }
  }

  /** Where a rush has got to: the ports handed out can be bound, and one went to each worker that
      asked unless somebody was dropped. */
  ghost predicate Rushed(p: Pool, w: nat, k: nat, b: Binding) {
    && (forall port | port in p.ports.taken :: b(port))
    && (forall i | k <= i < w && i < |p.workers| :: p.workers[i].HasToken?)
    && (NoneDropped(p) ==> |p.ports.taken| == k)
  }

  lemma RushStep(p: Pool, w: nat, k: nat, b: Binding, parallel: nat)
    requires Safe(p, parallel) && Rushed(p, w, k, b) && k < w <= |p.workers|
    ensures Rushed(Step(p, Allocate(k, b), parallel), w, k + 1, b)
    ensures NoneDropped(Step(p, Allocate(k, b), parallel)) ==> NoneDropped(p)
  {
    AllocateCorrect(p.ports, b);
    var q := Step(p, Allocate(k, b), parallel);
    DroppedStays(p, Allocate(k, b), parallel);
    assert p.ports.Allocate(b).1.None? ==> q.workers[k].Dropped();
  }

  /** Whoever was dropped never gets a result. */
  lemma DroppedStays(p: Pool, e: Event, parallel: nat)
    ensures NoneDropped(Step(p, e, parallel)) ==> NoneDropped(p)
  {
    var q := Step(p, e, parallel);
    if NoneDropped(q) {
      forall i | 0 <= i < |p.workers| ensures !p.workers[i].Dropped() {
        assert !q.workers[i].Dropped();
      }
    }
  }

  lemma RushStarts(w: nat, b: Binding, n: nat, base: int, limit: int, parallel: nat)
    requires w <= Width(n, parallel)
    ensures Rushed(After(Rush(w, 0, b), n, base, limit, parallel), w, 0, b)
  {
    AfterAcquires(w, n, base, limit, parallel);
  }

  lemma RushMore(w: nat, k: nat, b: Binding, n: nat, base: int, limit: int, parallel: nat)
    requires Rushed(After(Rush(w, k, b), n, base, limit, parallel), w, k, b) && k < w <= n
    ensures Rushed(After(Rush(w, k + 1, b), n, base, limit, parallel), w, k + 1, b)
  {
    var front := Rush(w, k, b);
    AfterSafe(front, n, base, limit, parallel);
    AfterMore(front, Allocate(k, b), n, base, limit, parallel);
    RushStep(After(front, n, base, limit, parallel), w, k, b, parallel);
  }

  lemma {:induction false} AfterRush(w: nat, k: nat, b: Binding, n: nat, base: int, limit: int, parallel: nat)
    requires k <= w <= Width(n, parallel)
    ensures Rushed(After(Rush(w, k, b), n, base, limit, parallel), w, k, b)
  {
    if k == 0 {
      RushStarts(w, b, n, base, limit, parallel);
    } else {
      var before := k - 1;
      AfterRush(w, before, b, n, base, limit, parallel);
      RushMore(w, before, b, n, base, limit, parallel);
    }
  }

  /** A full rush in which nobody is dropped has found a port for everybody. */
  lemma RushNeedsPorts(b: Binding, n: nat, base: int, limit: int, parallel: nat)
    ensures NoneDropped(After(Rush(Width(n, parallel), Width(n, parallel), b), n, base, limit, parallel)) ==>
      Fits(n, parallel, base, limit, b)
  {
    var w := Width(n, parallel);
    AfterRush(w, w, b, n, base, limit, parallel);
    AfterSafe(Rush(w, w, b), n, base, limit, parallel);
    TakenAndBlocked(After(Rush(w, w, b), n, base, limit, parallel), b, parallel);
  }

  /** Ports that were handed out and those that cannot be bound share the range. */
  lemma TakenAndBlocked(p: Pool, b: Binding, parallel: nat)
    requires Safe(p, parallel) && forall port | port in p.ports.taken :: b(port)
    ensures |p.ports.taken| + |Blocked(NewPorts(p.ports.base, p.ports.limit), b)| <= p.ports.Span()
  {
    var none := NewPorts(p.ports.base, p.ports.limit);
    var blocked := Blocked(none, b);
    assert p.ports.taken * blocked == {};
    SubsetSize(p.ports.taken + blocked, Range(none));
  }

  /** Nobody is ever dropped, whatever the schedule, exactly when ports are ample. */
  lemma NoneDroppedIff(n: nat, base: int, limit: int, parallel: nat, may: Binding -> bool, cancelled: bool)
    ensures (forall schedule | Allowed(schedule, may, cancelled) ::
        NoneDropped(After(schedule, n, base, limit, parallel)))
      <==> Ample(n, parallel, base, limit, may, cancelled)
  {
    if Ample(n, parallel, base, limit, may, cancelled) {
      forall schedule | Allowed(schedule, may, cancelled)
        ensures NoneDropped(After(schedule, n, base, limit, parallel))
      {
        AmpleDropsNone(schedule, n, base, limit, parallel, may, cancelled);
      }
    }
    if forall schedule | Allowed(schedule, may, cancelled) :: NoneDropped(After(schedule, n, base, limit, parallel)) {
      forall b: Binding | may(b) ensures Fits(n, parallel, base, limit, b) {
        RushAllowed(Width(n, parallel), Width(n, parallel), b, may, cancelled);
        RushNeedsPorts(b, n, base, limit, parallel);
      }
      if cancelled {
        QuitterDropped(n, base, limit, parallel);
        assert Allowed([GiveUp(0)], may, cancelled);
      }
    }
  }

  lemma QuitterDropped(n: nat, base: int, limit: int, parallel: nat)
    ensures NoneDropped(After([GiveUp(0)], n, base, limit, parallel)) ==> n == 0
  {
    AfterMore([], GiveUp(0), n, base, limit, parallel);
    assert [] + [GiveUp(0)] == [GiveUp(0)];
    var p := After([GiveUp(0)], n, base, limit, parallel);
    assert n > 0 ==> p.workers[0].Dropped();
  }

  // ---- results -----------------------------------------------------------------------

  /** Every schedule can be carried on until all are done; who was dropped stays so. */
  lemma {:induction false} Completes(
      schedule: seq<Event>, b: Binding, n: nat, base: int, limit: int, parallel: nat, may: Binding -> bool,
      cancelled: bool)
    returns (longer: seq<Event>)
    requires parallel > 0 && may(b) && Allowed(schedule, may, cancelled)
    ensures Allowed(longer, may, cancelled) && AllDone(After(longer, n, base, limit, parallel))
    ensures NoneDropped(After(longer, n, base, limit, parallel)) ==>
      NoneDropped(After(schedule, n, base, limit, parallel))
    decreases StepsLeft(After(schedule, n, base, limit, parallel).workers)
  {
    var p := After(schedule, n, base, limit, parallel);
    AfterSafe(schedule, n, base, limit, parallel);
    if AllDone(p) {
      longer := schedule;
    } else {
      SomebodyCanStep(p, parallel);
      var i: nat :| i < |p.workers| && CanStep(p, i, parallel);
      var e := NextEvent(p, i, b);
      AfterMore(schedule, e, n, base, limit, parallel);
      StepAdvances(p, e, b, false, parallel);
      DroppedStays(p, e, parallel);
      longer := Completes(schedule + [e], b, n, base, limit, parallel, may, cancelled);
    }
  }

  lemma FullArrivals(p: Pool, parallel: nat)
    requires Safe(p, parallel) && multiset(p.arrivals) == multiset(AllWorkers(|p.workers|))
    ensures NoneDropped(p)
  {
    SameMembers(p.arrivals, AllWorkers(|p.workers|));
    forall i | 0 <= i < |p.workers| ensures !p.workers[i].Dropped() {
      assert AllWorkers(|p.workers|)[i] == i;
      assert p.workers[i].Produced();
    }
  }

  function Quits(k: nat): seq<Event> {
    if k == 0 then [] else Quits(k - 1) + [GiveUp(k - 1)]
  }

  ghost predicate Quitted(p: Pool, k: nat) {
    p.arrivals == [] && forall i | 0 <= i < |p.workers| :: p.workers[i] == if i < k then Done(false) else Waiting
  }

  lemma QuitStep(p: Pool, k: nat, parallel: nat)
    requires Quitted(p, k) && k < |p.workers|
    ensures Quitted(Step(p, GiveUp(k), parallel), k + 1)
  {
  }

  lemma QuitMore(front: seq<Event>, k: nat, n: nat, base: int, limit: int, parallel: nat)
    requires Quitted(After(front, n, base, limit, parallel), k) && k < n
    ensures Quitted(After(front + [GiveUp(k)], n, base, limit, parallel), k + 1)
  {
    AfterMore(front, GiveUp(k), n, base, limit, parallel);
    QuitStep(After(front, n, base, limit, parallel), k, parallel);
  }

  lemma {:induction false} QuitsAllowed(k: nat, may: Binding -> bool)
    ensures Allowed(Quits(k), may, true)
  {
    if k > 0 {
      QuitsAllowed(k - 1, may);
    }
  }

  lemma {:induction false} AfterQuits(k: nat, n: nat, base: int, limit: int, parallel: nat)
    requires k <= n
    ensures Quitted(After(Quits(k), n, base, limit, parallel), k)
  {
    if k > 0 {
      AfterQuits(k - 1, n, base, limit, parallel);
      QuitMore(Quits(k - 1), k - 1, n, base, limit, parallel);
    }
  }

  /** Every finished schedule has exactly one result for each configuration. */
  ghost predicate AlwaysComplete(n: nat, base: int, limit: int, parallel: nat, may: Binding -> bool, cancelled: bool) {
    forall schedule | Allowed(schedule, may, cancelled) && AllDone(After(schedule, n, base, limit, parallel)) ::
      multiset(After(schedule, n, base, limit, parallel).arrivals) == multiset(AllWorkers(n))
  }

  /** Whatever the schedule, every configuration has exactly one result: exactly when ports are
      ample. */
  lemma OneResultEachIff(n: nat, base: int, limit: int, parallel: nat, may: Binding -> bool, cancelled: bool)
    requires parallel > 0
    ensures AlwaysComplete(n, base, limit, parallel, may, cancelled)
      <==> Ample(n, parallel, base, limit, may, cancelled)
  {
    if Ample(n, parallel, base, limit, may, cancelled) {
      forall schedule | Allowed(schedule, may, cancelled) && AllDone(After(schedule, n, base, limit, parallel))
        ensures multiset(After(schedule, n, base, limit, parallel).arrivals) == multiset(AllWorkers(n))
      {
        AmpleDropsNone(schedule, n, base, limit, parallel, may, cancelled);
        AfterSafe(schedule, n, base, limit, parallel);
        OneResultEach(After(schedule, n, base, limit, parallel), parallel);
      }
    }
    if AlwaysComplete(n, base, limit, parallel, may, cancelled) {
      forall b: Binding | may(b) ensures Fits(n, parallel, base, limit, b) {
        CompleteFits(b, n, base, limit, parallel, may, cancelled);
      }
      if cancelled {
        CompleteStays(n, base, limit, parallel, may);
      }
    }
  }

  lemma CompleteFits(
      b: Binding, n: nat, base: int, limit: int, parallel: nat, may: Binding -> bool, cancelled: bool)
    requires parallel > 0 && may(b) && AlwaysComplete(n, base, limit, parallel, may, cancelled)
    ensures Fits(n, parallel, base, limit, b)
  {
    var w := Width(n, parallel);
    RushAllowed(w, w, b, may, cancelled);
    var longer := Completes(Rush(w, w, b), b, n, base, limit, parallel, may, cancelled);
    AfterSafe(longer, n, base, limit, parallel);
    FullArrivals(After(longer, n, base, limit, parallel), parallel);
    RushNeedsPorts(b, n, base, limit, parallel);
  }

  lemma CompleteStays(n: nat, base: int, limit: int, parallel: nat, may: Binding -> bool)
    requires AlwaysComplete(n, base, limit, parallel, may, true)
    ensures n == 0
  {
    QuitsAllowed(n, may);
    AfterQuits(n, n, base, limit, parallel);
    var p := After(Quits(n), n, base, limit, parallel);
    assert |multiset(p.arrivals)| == 0 && |multiset(AllWorkers(n))| == |AllWorkers(n)|;
  }

  /** One configuration and no port that can be bound: its worker takes the token, finds no port,
      and is dropped. */
  lemma ShortageDrops(base: int, limit: int)
    ensures !NoneDropped(After([Acquire(0), Allocate(0, _ => false)], 1, base, limit, 1))
  {
    var none: Binding := _ => false;
    var ports := NewPorts(base, limit);
    RushNeedsPorts(none, 1, base, limit, 1);
    OneRush(none);
    assert Blocked(ports, none) == Range(ports);
  }

  lemma OneRush(b: Binding)
    ensures Rush(1, 1, b) == [Acquire(0), Allocate(0, b)]
  {
    assert Acquires(0) == [] && Acquires(1) == [Acquire(0)];
    assert Rush(1, 0, b) == [Acquire(0)];
  }
}
