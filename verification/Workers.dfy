/** The bounded workers of XrayTest: internal/daemon/tester.go. One goroutine per configuration
    takes a semaphore token, then a port, runs its test, appends the result, gives the port back
    and then the token. Scheduling, and which ports can be bound at each allocation, are arbitrary. */
module Workers {
  import opened Options
  import opened Ports
  import opened Sets
  import opened Sorting

  /** Where a goroutine is. produced says whether its result was appended. */
  datatype Worker =
    | Waiting
    | HasToken
    | HasPort(port: int)
    | Appended(port: int)
    | PortFreed(produced: bool)
    | Done(produced: bool)
  {
    predicate HoldsToken() { HasToken? || HasPort? || Appended? || PortFreed? }
    predicate HoldsPort() { HasPort? || Appended? }
    predicate Produced() { Appended? || ((PortFreed? || Done?) && produced) }
    predicate Dropped() { (PortFreed? || Done?) && !produced }

    /** Steps left to take. */
    function Left(): nat {
      match this
      case Waiting => 5
      case HasToken => 4
      case HasPort(_) => 3
      case Appended(_) => 2
      case PortFreed(_) => 1
      case Done(_) => 0
    }
  }

  /** arrivals lists the workers in the order in which their results were appended. */
  datatype Pool = Pool(workers: seq<Worker>, tokens: nat, ports: PortState, arrivals: seq<nat>)

  datatype Event =
    | Acquire(i: nat)
    | GiveUp(i: nat)  // the context is done before a token is free
    | Allocate(i: nat, bindable: int -> bool)
    | Append(i: nat)
    | FreePort(i: nat)
    | FreeToken(i: nat)

  function Set(p: Pool, i: nat, w: Worker): Pool
    requires i < |p.workers|
  {
    p.(workers := p.workers[i := w])
  }

  /** One step of worker i; an event that is not enabled changes nothing. */
  function Step(p: Pool, e: Event, parallel: nat): Pool {
    if e.i >= |p.workers| then p
    else
      var w := p.workers[e.i];
      match e
      case Acquire(i) => if w.Waiting? && p.tokens < parallel then Set(p, i, HasToken).(tokens := p.tokens + 1) else p
      case GiveUp(i) => if w.Waiting? then Set(p, i, Done(false)) else p
      case Allocate(i, bindable) =>
        if !w.HasToken? then p
        else (match p.ports.Allocate(bindable)
          case (ports, None) => Set(p, i, PortFreed(false))
          case (ports, Some(port)) => Set(p, i, HasPort(port)).(ports := ports))
      case Append(i) => if w.HasPort? then Set(p, i, Appended(w.port)).(arrivals := p.arrivals + [i]) else p
      case FreePort(i) => if w.Appended? then Set(p, i, PortFreed(true)).(ports := p.ports.Release(w.port)) else p
      case FreeToken(i) =>
        if w.PortFreed? && p.tokens > 0 then Set(p, i, Done(w.produced)).(tokens := p.tokens - 1) else p
  }

  function Start(n: nat, base: int, limit: int): Pool {
    Pool(seq(n, _ => Waiting), 0, NewPorts(base, limit), [])
  }

  // ---- the invariant -----------------------------------------------------------------

  function TokenHolders(ws: seq<Worker>): set<nat> { set i: nat | i < |ws| && ws[i].HoldsToken() }
  function PortHolders(ws: seq<Worker>): set<nat> { set i: nat | i < |ws| && ws[i].HoldsPort() }

  /** Tokens are exactly those the workers hold, within the bound; allocated ports are exactly
      those the workers hold, no port twice; every arrival is one worker's one result. */
  ghost predicate Safe(p: Pool, parallel: nat) {
    && p.tokens == |TokenHolders(p.workers)| <= parallel
    && p.ports.Valid()
    && (forall i | 0 <= i < |p.workers| && p.workers[i].HoldsPort() :: p.workers[i].port in p.ports.taken)
    && AllHeld(p.workers, p.ports.taken)
    && (forall i, j | 0 <= i < j < |p.workers| && p.workers[i].HoldsPort() && p.workers[j].HoldsPort() ::
          p.workers[i].port != p.workers[j].port)
    && Distinct(p.arrivals)
    && (forall i: nat :: i in p.arrivals <==> i < |p.workers| && p.workers[i].Produced())
  }

  predicate Holds(ws: seq<Worker>, i: nat, port: int) {
    i < |ws| && ws[i].HoldsPort() && ws[i].port == port
  }

  lemma HoldersAfter(ws: seq<Worker>, i: nat, w: Worker)
    requires i < |ws|
    ensures |TokenHolders(ws[i := w])| ==
      |TokenHolders(ws)| - (if ws[i].HoldsToken() then 1 else 0) + (if w.HoldsToken() then 1 else 0)
  {
    OtherHolders(ws, i, w);
    var rest := TokenHolders(ws) - {i};
    assert |TokenHolders(ws)| == |rest| + (if ws[i].HoldsToken() then 1 else 0);
  }

  lemma OtherHolders(ws: seq<Worker>, i: nat, w: Worker)
    requires i < |ws|
    ensures TokenHolders(ws[i := w]) ==
      if w.HoldsToken() then TokenHolders(ws) - {i} + {i} else TokenHolders(ws) - {i}
  {
  }

  lemma StartSafe(n: nat, base: int, limit: int, parallel: nat)
    ensures Safe(Start(n, base, limit), parallel)
  {
  }

  ghost predicate AllHeld(ws: seq<Worker>, ports: set<int>) {
    forall port | port in ports :: exists i: nat :: Holds(ws, i, port)
  }

  /** Ports stay held when the worker that changes holds none of them, or holds it still. */
  lemma StillHeld(ws: seq<Worker>, i: nat, w: Worker, ports: set<int>)
    requires i < |ws| && AllHeld(ws, ports)
    requires ws[i].HoldsPort() && ws[i].port in ports ==> w.HoldsPort() && w.port == ws[i].port
    ensures AllHeld(ws[i := w], ports)
  {
    var q := ws[i := w];
    forall port | port in ports ensures exists j: nat :: Holds(q, j, port) {
      var j: nat :| Holds(ws, j, port);
      assert Holds(q, j, port);
    }
  }

  /** A step that leaves ports and arrivals alone. */
  lemma TokenStepSafe(p: Pool, i: nat, w: Worker, parallel: nat)
    requires Safe(p, parallel) && i < |p.workers|
    requires !p.workers[i].HoldsPort() && !w.HoldsPort() && p.workers[i].Produced() == w.Produced()
    requires |TokenHolders(p.workers[i := w])| <= parallel
    ensures Safe(Set(p, i, w).(tokens := |TokenHolders(p.workers[i := w])|), parallel)
  {
    StillHeld(p.workers, i, w, p.ports.taken);
  }

  /** Handing a free port to a worker that holds a token. */
  lemma TakeSafe(p: Pool, i: nat, port: int, parallel: nat)
    requires Safe(p, parallel) && i < |p.workers| && p.workers[i].HasToken?
    requires port !in p.ports.taken && p.ports.InRange(port)
    ensures Safe(Set(p, i, HasPort(port)).(ports := p.ports.Take(port)), parallel)
  {
    var q := p.workers[i := HasPort(port)];
    HoldersAfter(p.workers, i, HasPort(port));
    StillHeld(p.workers, i, HasPort(port), p.ports.taken);
    assert Holds(q, i, port);
  }

  lemma AllocateSafe(p: Pool, i: nat, bindable: int -> bool, parallel: nat)
    requires Safe(p, parallel) && i < |p.workers| && p.workers[i].HasToken?
    ensures Safe(Step(p, Allocate(i, bindable), parallel), parallel)
  {
    AllocateCorrect(p.ports, bindable);
    var r := p.ports.Allocate(bindable).1;
    if r.None? {
      HoldersAfter(p.workers, i, PortFreed(false));
      TokenStepSafe(p, i, PortFreed(false), parallel);
    } else {
      TakeSafe(p, i, r.value, parallel);
    }
  }

  lemma AppendSafe(p: Pool, i: nat, parallel: nat)
    requires Safe(p, parallel) && i < |p.workers| && p.workers[i].HasPort?
    ensures Safe(Step(p, Append(i), parallel), parallel)
  {
    var w := Appended(p.workers[i].port);
    HoldersAfter(p.workers, i, w);
    StillHeld(p.workers, i, w, p.ports.taken);
  }

  lemma FreePortSafe(p: Pool, i: nat, parallel: nat)
    requires Safe(p, parallel) && i < |p.workers| && p.workers[i].Appended?
    ensures Safe(Step(p, FreePort(i), parallel), parallel)
  {
    HoldersAfter(p.workers, i, PortFreed(true));
    StillHeld(p.workers, i, PortFreed(true), p.ports.taken - {p.workers[i].port});
  }

  lemma StepSafe(p: Pool, e: Event, parallel: nat)
    requires Safe(p, parallel)
    ensures Safe(Step(p, e, parallel), parallel)
  {
    if e.i < |p.workers| {
      var w := p.workers[e.i];
      match e {
        case Acquire(i) =>
          HoldersAfter(p.workers, i, HasToken);
          if w.Waiting? && p.tokens < parallel {
            TokenStepSafe(p, i, HasToken, parallel);
          }
        case GiveUp(i) =>
          HoldersAfter(p.workers, i, Done(false));
          if w.Waiting? {
            TokenStepSafe(p, i, Done(false), parallel);
          }
        case Allocate(i, bindable) =>
          if w.HasToken? {
            AllocateSafe(p, i, bindable, parallel);
          }
        case Append(i) =>
          if w.HasPort? {
            AppendSafe(p, i, parallel);
          }
        case FreePort(i) =>
          if w.Appended? {
            FreePortSafe(p, i, parallel);
          }
        case FreeToken(i) =>
          if w.PortFreed? {
            HoldersAfter(p.workers, i, Done(w.produced));
            TokenStepSafe(p, i, Done(w.produced), parallel);
          }
      }
    }
  }

  // ---- every schedule ----------------------------------------------------------------

  lemma StepStays(p: Pool, e: Event, parallel: nat)
    ensures var q := Step(p, e, parallel);
      |q.workers| == |p.workers| && q.ports.base == p.ports.base && q.ports.limit == p.ports.limit
  {
  }

  /** The pool after any sequence of steps. */
  ghost function After(schedule: seq<Event>, n: nat, base: int, limit: int, parallel: nat): (p: Pool)
    ensures |p.workers| == n && p.ports.base == base && p.ports.limit == limit
  {
    if schedule == [] then Start(n, base, limit)
    else
      var before := After(schedule[..|schedule| - 1], n, base, limit, parallel);
      StepStays(before, schedule[|schedule| - 1], parallel);
      Step(before, schedule[|schedule| - 1], parallel)
  }

  /** The invariant holds after any schedule, cancellation included. */
  lemma {:induction false} AfterSafe(schedule: seq<Event>, n: nat, base: int, limit: int, parallel: nat)
    ensures Safe(After(schedule, n, base, limit, parallel), parallel)
  {
    if schedule == [] {
      StartSafe(n, base, limit, parallel);
    } else {
      var front := schedule[..|schedule| - 1];
      AfterSafe(front, n, base, limit, parallel);
      StepSafe(After(front, n, base, limit, parallel), schedule[|schedule| - 1], parallel);
    }
  }

  ghost predicate AllDone(p: Pool) { forall i | 0 <= i < |p.workers| :: p.workers[i].Done? }

  /** When every goroutine has returned nothing is held any more. */
  lemma NothingHeld(p: Pool, parallel: nat)
    requires Safe(p, parallel) && AllDone(p)
    ensures p.tokens == 0 && p.ports.taken == {}
  {
  }

  // ---- nobody is dropped -------------------------------------------------------------

  /** Fewer ports are allocated than tokens are held while somebody holds a token but no port. */
  lemma PortsBelowTokens(p: Pool, i: nat, parallel: nat)
    requires Safe(p, parallel) && i < |p.workers| && p.workers[i].HasToken?
    ensures |p.ports.taken| < p.tokens
  {
    var holders := PortHolders(p.workers);
    SubsetSize(holders, TokenHolders(p.workers) - {i});
    PortsOfHolders(p, p.ports.taken, holders, parallel);
  }

  lemma WhoHolds(p: Pool, port: int, parallel: nat) returns (i: nat)
    requires Safe(p, parallel) && port in p.ports.taken
    ensures i < |p.workers| && p.workers[i].HoldsPort() && p.workers[i].port == port
  {
    i :| Holds(p.workers, i, port);
  }

  lemma {:induction false} PortsOfHolders(p: Pool, ports: set<int>, holders: set<nat>, parallel: nat)
    requires Safe(p, parallel) && ports <= p.ports.taken
    requires forall i | 0 <= i < |p.workers| && p.workers[i].HoldsPort() && p.workers[i].port in ports :: i in holders
    ensures |ports| <= |holders|
  {
    if ports != {} {
      var port := Member(ports);
      var i := WhoHolds(p, port, parallel);
      PortsOfHolders(p, ports - {port}, holders - {i}, parallel);
    }
  }

  /** How many of n workers can hold a token at once. */
  function Width(n: nat, parallel: nat): nat { if n < parallel then n else parallel }

  /** Even with all of them at work, every one finds a port that can be bound. */
  predicate Fits(n: nat, parallel: nat, base: int, limit: int, bindable: int -> bool) {
    Width(n, parallel) + |Blocked(NewPorts(base, limit), bindable)| <= NewPorts(base, limit).Span()
  }

  /** No cancellation, and at every allocation few enough ports blocked from outside. */
  ghost predicate Undisturbed(p: Pool, e: Event, parallel: nat) {
    && !e.GiveUp?
    && (e.Allocate? ==> Width(|p.workers|, parallel) + |Blocked(p.ports, e.bindable)| <= p.ports.Span())
  }

  lemma TokensBelowWidth(p: Pool, parallel: nat)
    requires Safe(p, parallel)
    ensures p.tokens <= Width(|p.workers|, parallel)
  {
    SubsetSize(TokenHolders(p.workers), Interval(0, |p.workers|));
  }

  ghost predicate NoneDropped(p: Pool) { forall i | 0 <= i < |p.workers| :: !p.workers[i].Dropped() }

  lemma StepDropsNone(p: Pool, e: Event, parallel: nat)
    requires Safe(p, parallel) && NoneDropped(p) && Undisturbed(p, e, parallel)
    ensures NoneDropped(Step(p, e, parallel))
  {
    if e.Allocate? && e.i < |p.workers| && p.workers[e.i].HasToken? {
      PortsBelowTokens(p, e.i, parallel);
      TokensBelowWidth(p, parallel);
      RoomToAllocate(p.ports, e.bindable);
    }
    if e.i < |p.workers| {
      var q := Step(p, e, parallel);
      assert !p.workers[e.i].Dropped();
      assert q.workers == p.workers[e.i := q.workers[e.i]] && !q.workers[e.i].Dropped();
    }
  }

  ghost predicate UndisturbedRun(schedule: seq<Event>, n: nat, base: int, limit: int, parallel: nat) {
    schedule == [] ||
    (UndisturbedRun(schedule[..|schedule| - 1], n, base, limit, parallel) &&
     Undisturbed(After(schedule[..|schedule| - 1], n, base, limit, parallel), schedule[|schedule| - 1], parallel))
  }

  lemma {:induction false} RunDropsNone(schedule: seq<Event>, n: nat, base: int, limit: int, parallel: nat)
    requires UndisturbedRun(schedule, n, base, limit, parallel)
    ensures NoneDropped(After(schedule, n, base, limit, parallel))
  {
    if schedule != [] {
      var front := schedule[..|schedule| - 1];
      RunDropsNone(front, n, base, limit, parallel);
      AfterSafe(front, n, base, limit, parallel);
      StepDropsNone(After(front, n, base, limit, parallel), schedule[|schedule| - 1], parallel);
    }
  }

  function AllWorkers(n: nat): (r: seq<nat>)
    ensures |r| == n && forall i | 0 <= i < n :: r[i] == i
  {
    seq(n, i => i)
  }

  /** When all are done and none was dropped there is exactly one result per worker. */
  lemma OneResultEach(p: Pool, parallel: nat)
    requires Safe(p, parallel) && AllDone(p) && NoneDropped(p)
    ensures multiset(p.arrivals) == multiset(AllWorkers(|p.workers|))
  {
    var all := AllWorkers(|p.workers|);
    forall i: nat ensures i in p.arrivals <==> i in all {
      if i < |p.workers| {
        assert p.workers[i].Done? && !p.workers[i].Dropped();
        assert all[i] == i;
      }
    }
    SameSetSameMultiset(p.arrivals, all);
  }

  /** Every finished, undisturbed schedule: nothing held, and one result per configuration. */
  lemma WaitReturns(schedule: seq<Event>, n: nat, base: int, limit: int, parallel: nat)
    requires UndisturbedRun(schedule, n, base, limit, parallel) && AllDone(After(schedule, n, base, limit, parallel))
    ensures var p := After(schedule, n, base, limit, parallel);
      p.tokens == 0 && p.ports.taken == {} && multiset(p.arrivals) == multiset(AllWorkers(n))
  {
    RunDropsNone(schedule, n, base, limit, parallel);
    AfterSafe(schedule, n, base, limit, parallel);
    NothingHeld(After(schedule, n, base, limit, parallel), parallel);
    OneResultEach(After(schedule, n, base, limit, parallel), parallel);
  }

  // ---- progress ----------------------------------------------------------------------

  predicate CanStep(p: Pool, i: nat, parallel: nat)
    requires i < |p.workers|
  {
    if p.workers[i].Waiting? then p.tokens < parallel else !p.workers[i].Done?
  }

  /** The next step of worker i. */
  function NextEvent(p: Pool, i: nat, bindable: int -> bool): Event
    requires i < |p.workers|
  {
    match p.workers[i]
    case Waiting => Acquire(i)
    case HasToken => Allocate(i, bindable)
    case HasPort(_) => Append(i)
    case Appended(_) => FreePort(i)
    case _ => FreeToken(i)
  }

  function StepsLeft(ws: seq<Worker>): nat {
    if ws == [] then 0 else ws[0].Left() + StepsLeft(ws[1..])
  }

  lemma {:induction false} StepsLeftUpdate(ws: seq<Worker>, i: nat, w: Worker)
    requires i < |ws|
    ensures StepsLeft(ws[i := w]) == StepsLeft(ws) - ws[i].Left() + w.Left()
  {
    if i == 0 {
      assert ws[0 := w][1..] == ws[1..];
    } else {
      assert ws[i := w][1..] == ws[1..][i - 1 := w];
      StepsLeftUpdate(ws[1..], i - 1, w);
    }
  }

  /** The semaphore never deadlocks: while somebody is not done, somebody can take a step. */
  lemma SomebodyCanStep(p: Pool, parallel: nat)
    requires Safe(p, parallel) && parallel > 0 && !AllDone(p)
    ensures exists i: nat :: i < |p.workers| && CanStep(p, i, parallel)
  {
    var i :| 0 <= i < |p.workers| && !p.workers[i].Done?;
    if p.workers[i].Waiting? && p.tokens >= parallel {
      var j :| j in TokenHolders(p.workers) by {
        assert |TokenHolders(p.workers)| > 0;
      }
      assert CanStep(p, j, parallel);
    } else {
      assert CanStep(p, i, parallel);
    }
  }

  /** e is a step some worker can take now; done says whether the context is. */
  ghost predicate Enabled(p: Pool, e: Event, bindable: int -> bool, done: bool, parallel: nat) {
    && e.i < |p.workers|
    && if e.GiveUp? then done && p.workers[e.i].Waiting?
       else CanStep(p, e.i, parallel) && e == NextEvent(p, e.i, bindable)
  }

  lemma StepAdvances(p: Pool, e: Event, bindable: int -> bool, done: bool, parallel: nat)
    requires Safe(p, parallel) && Enabled(p, e, bindable, done, parallel)
    ensures StepsLeft(Step(p, e, parallel).workers) < StepsLeft(p.workers)
  {
    var q := Step(p, e, parallel);
    if p.workers[e.i].PortFreed? {
      assert e.i in TokenHolders(p.workers);
    }
    assert q.workers == p.workers[e.i := q.workers[e.i]];
    StepsLeftUpdate(p.workers, e.i, q.workers[e.i]);
  }

  lemma StepFrame(p: Pool, e: Event, parallel: nat)
    requires e.i < |p.workers|
    ensures var q := Step(p, e, parallel);
      && |q.workers| == |p.workers| && q.ports.base == p.ports.base && q.ports.limit == p.ports.limit
      && q.arrivals == (if e.Append? && p.workers[e.i].HasPort? then p.arrivals + [e.i] else p.arrivals)
  {
  }

  // ---- the test round ----------------------------------------------------------------

  /** Nobody cancels while there is something to test, and at every step enough ports can be bound
      for the workers that can be at work. PortShortage shows that nothing less will do. */
  ghost predicate Calm(
      n: nat, parallel: nat, base: int, limit: int, bind: nat -> (int -> bool), done: nat -> bool)
  {
    forall k :: !(done(k) && n > 0) && Fits(n, parallel, base, limit, bind(k))
  }

  /** What the scheduler below keeps in every round; whole says that the conditions are calm. */
  ghost predicate Going(p: Pool, n: nat, base: int, limit: int, parallel: nat, whole: bool) {
    && Safe(p, parallel) && |p.workers| == n && p.ports.base == base && p.ports.limit == limit
    && (whole ==> NoneDropped(p))
  }

  lemma RoundKeeps(p: Pool, e: Event, bindable: int -> bool, done: bool, n: nat, base: int, limit: int,
      parallel: nat, whole: bool)
    requires Going(p, n, base, limit, parallel, whole) && Enabled(p, e, bindable, done, parallel)
    requires whole ==> !(done && n > 0) && Fits(n, parallel, base, limit, bindable)
    ensures Going(Step(p, e, parallel), n, base, limit, parallel, whole)
  {
    StepSafe(p, e, parallel);
    StepFrame(p, e, parallel);
    if whole {
      FewerBlocked(p.ports, bindable);
      StepDropsNone(p, e, parallel);
    }
  }

  /** The runtime decides who goes next, and which case a select with two ready ones takes. */
  method PickStep(p: Pool, bindable: int -> bool, done: bool, parallel: nat) returns (e: Event)
    requires Safe(p, parallel) && parallel > 0 && !AllDone(p)
    ensures Enabled(p, e, bindable, done, parallel)
  {
    SomebodyCanStep(p, parallel);
    var i: nat :| i < |p.workers| && (CanStep(p, i, parallel) || (done && p.workers[i].Waiting?));
    var quit: bool := *;
    if done && p.workers[i].Waiting? && (quit || !CanStep(p, i, parallel)) {
      return GiveUp(i);
    }
    return NextEvent(p, i, bindable);
  }

  /** Each result that arrived belongs to one worker; under calm conditions all of them arrived. */
  lemma ResultsArrived<R>(p: Pool, outcome: nat -> R, parallel: nat)
    requires Safe(p, parallel) && AllDone(p)
    ensures multiset(Map(outcome, p.arrivals)) <= multiset(Map(outcome, AllWorkers(|p.workers|)))
    ensures NoneDropped(p) ==> multiset(Map(outcome, p.arrivals)) == multiset(Map(outcome, AllWorkers(|p.workers|)))
  {
    var all := AllWorkers(|p.workers|);
    forall i | i in p.arrivals ensures i in all {
      assert all[i] == i;
    }
    DistinctPart(p.arrivals, all);
    MapPart(outcome, p.arrivals, all);
    if NoneDropped(p) {
      OneResultEach(p, parallel);
      MapPermuted(outcome, p.arrivals, all);
    }
  }

  /** The step e, with its result when it appends one. */
  method TakeStep<R>(p: Pool, e: Event, outcome: nat -> R, parallel: nat, results: seq<R>)
    returns (q: Pool, more: seq<R>)
    requires e.i < |p.workers| && (e.Append? ==> p.workers[e.i].HasPort?) && results == Map(outcome, p.arrivals)
    ensures q == Step(p, e, parallel) && more == Map(outcome, q.arrivals)
  {
    StepFrame(p, e, parallel);
    MapAppend(outcome, p.arrivals, [e.i]);
    more := results;
    if e.Append? {
      more := results + [outcome(e.i)];
    }
    q := Step(p, e, parallel);
  }

  /** XrayTest under an arbitrary scheduler. bind(k) says which ports can be bound at the k-th step
      and done(k) whether the context is done by then; what the pipeline reports for each
      configuration is a parameter. It ends, and every configuration has at most one result, its
      own; under calm conditions exactly one, in an order nobody controls. */
  method XrayTest<R>(n: nat, outcome: nat -> R, parallel: nat, base: int, limit: int,
      bind: nat -> (int -> bool), done: nat -> bool)
    returns (results: seq<R>)
    requires parallel > 0
    ensures multiset(results) <= multiset(Map(outcome, AllWorkers(n)))
    ensures Calm(n, parallel, base, limit, bind, done) ==> multiset(results) == multiset(Map(outcome, AllWorkers(n)))
  {
    ghost var whole := Calm(n, parallel, base, limit, bind, done);
    var p := Start(n, base, limit);
    StartSafe(n, base, limit, parallel);
    results := [];
    var steps := 0;
    while exists i: nat :: i < |p.workers| && !p.workers[i].Done?
      invariant Going(p, n, base, limit, parallel, whole)
      invariant results == Map(outcome, p.arrivals)
      decreases StepsLeft(p.workers)
    {
      var e := PickStep(p, bind(steps), done(steps), parallel);
      RoundKeeps(p, e, bind(steps), done(steps), n, base, limit, parallel, whole);
      StepAdvances(p, e, bind(steps), done(steps), parallel);
      p, results := TakeStep(p, e, outcome, parallel, results);
      steps := steps + 1;
    }
    ResultsArrived(p, outcome, parallel);
  }
}
