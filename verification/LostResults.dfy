/** When a cycle loses test results: the condition of PortShortage, for the cycle's own numbers. */
module LostResults {
  import opened Bytes
  import opened Cycle
  import opened Limit
  import opened PortShortage
  import opened Ports
  import opened Publish
  import opened Sets
  import opened Sorting
  import opened State
  import opened Workers

  /** The port manager's range. */
  const PORT_SPAN: int := 100

  /** What the test of the i-th kept survivor reports. */
  function OutcomeOf(w: World, kept: seq<NamedConfig>): nat -> TestResult {
    (i: nat) => if i < |kept| then ResultOf(w)(kept[i].hash) else TestResult([], false, 0)
  }

  lemma AllOutcomes(w: World, kept: seq<NamedConfig>)
    ensures Map(OutcomeOf(w, kept), AllWorkers(|kept|)) == ResultsFor(w, kept)
  {
  }

  /** The results of a test round, in the order in which they were appended. */
  ghost function ResultsOf(schedule: seq<Event>, kept: seq<NamedConfig>, s: Settings, w: World): seq<TestResult> {
    Map(OutcomeOf(w, kept), After(schedule, |kept|, s.portBase, PORT_SPAN, s.parallel).arrivals)
  }

  lemma OutcomeHash(w: World, kept: seq<NamedConfig>, i: nat)
    requires i < |kept|
    ensures OutcomeOf(w, kept)(i).hash == kept[i].hash
  {
    var h := kept[i].hash;
    assert ResultOf(w)(h).hash == h;
    assert OutcomeOf(w, kept)(i) == ResultOf(w)(h);
  }

  /** A kept survivor has a result exactly when its worker's arrived. */
  lemma ArrivedIff(w: World, kept: seq<NamedConfig>, arrivals: seq<nat>, i: nat)
    requires DistinctNames(kept) && i < |kept| && forall k | k in arrivals :: k < |kept|
    ensures kept[i].hash in HashesOfResults(Map(OutcomeOf(w, kept), arrivals)) <==> i in arrivals
  {
    var results := Map(OutcomeOf(w, kept), arrivals);
    if i in arrivals {
      var j :| 0 <= j < |arrivals| && arrivals[j] == i;
      OutcomeHash(w, kept, i);
      assert results[j] in results && results[j].hash == kept[i].hash;
    }
    if kept[i].hash in HashesOfResults(results) {
      var r :| r in results && r.hash == kept[i].hash;
      var j :| 0 <= j < |results| && results[j] == r;
      assert arrivals[j] in arrivals;
      OutcomeHash(w, kept, arrivals[j]);
    }
  }

  lemma NoneLostIff(w: World, kept: seq<NamedConfig>, arrivals: seq<nat>)
    requires DistinctNames(kept) && Distinct(arrivals) && forall k | k in arrivals :: k < |kept|
    ensures Elements(Hashes(kept)) - HashesOfResults(Map(OutcomeOf(w, kept), arrivals)) == {}
      <==> multiset(arrivals) == multiset(AllWorkers(|kept|))
  {
    var found := HashesOfResults(Map(OutcomeOf(w, kept), arrivals));
    var all := AllWorkers(|kept|);
    forall i: nat | i < |kept| ensures Hashes(kept)[i] in found <==> i in arrivals {
      ArrivedIff(w, kept, arrivals, i);
    }
    NothingLeft(Elements(Hashes(kept)), found);
    if Elements(Hashes(kept)) <= found {
      forall i: nat ensures i in arrivals <==> i in all {
        if i < |kept| {
          assert all[i] == i;
          assert Hashes(kept)[i] in Elements(Hashes(kept));
          assert Hashes(kept)[i] in found;
        }
      }
      SameSetSameMultiset(arrivals, all);
    }
    if multiset(arrivals) == multiset(all) {
      SameMembers(arrivals, all);
      forall h | h in Hashes(kept) ensures h in found {
        var i :| 0 <= i < |kept| && Hashes(kept)[i] == h;
        assert all[i] == i && i in arrivals;
      }
    }
  }

  lemma RoundLosesNoneIff(
      schedule: seq<Event>, st: Table, known: Configs, s: Settings, w: World, candidates: seq<Hash>)
    requires Enumerates(candidates, Due(st, s, w.now))
    ensures var kept := KeptOf(st, known, s, w, candidates);
      Lost(st, known, s, w, ResultsOf(schedule, kept, s, w)) == {} <==>
        multiset(After(schedule, |kept|, s.portBase, PORT_SPAN, s.parallel).arrivals) == multiset(AllWorkers(|kept|))
  {
    var kept := KeptOf(st, known, s, w, candidates);
    KeptCount(st, known, s, w, candidates);
    AfterSafe(schedule, |kept|, s.portBase, PORT_SPAN, s.parallel);
    NoneLostIff(w, kept, After(schedule, |kept|, s.portBase, PORT_SPAN, s.parallel).arrivals);
  }

  /** The survivors that are tested, in the order in which they are handed to the workers. */
  function KeptOf(st: Table, known: Configs, s: Settings, w: World, candidates: seq<Hash>): seq<NamedConfig> {
    var tcp := TcpOf(st, known, s, w);
    Kept(tcp, Survivors(candidates, tcp, known), s.maxXrayTests)
  }

  /** No finished test round of the cycle loses a result. */
  ghost predicate NeverLoses(st: Table, known: Configs, s: Settings, w: World, candidates: seq<Hash>,
      may: Binding -> bool, cancelled: bool)
  {
    var kept := KeptOf(st, known, s, w, candidates);
    forall schedule | Allowed(schedule, may, cancelled)
        && AllDone(After(schedule, |kept|, s.portBase, PORT_SPAN, s.parallel)) ::
      Lost(st, known, s, w, ResultsOf(schedule, kept, s, w)) == {}
  }

  /** A cycle never loses a result exactly when ports are ample for the configurations it tests, and
      it cannot be cancelled while it tests any. */
  lemma NeverLosesIff(st: Table, known: Configs, s: Settings, w: World, candidates: seq<Hash>,
      may: Binding -> bool, cancelled: bool)
    requires s.parallel > 0 && Enumerates(candidates, Due(st, s, w.now))
    ensures NeverLoses(st, known, s, w, candidates, may, cancelled)
      <==> Ample(|ToTest(st, known, s, w)|, s.parallel, s.portBase, PORT_SPAN, may, cancelled)
  {
    var kept := KeptOf(st, known, s, w, candidates);
    KeptCount(st, known, s, w, candidates);
    forall schedule
      ensures Lost(st, known, s, w, ResultsOf(schedule, kept, s, w)) == {} <==>
        multiset(After(schedule, |kept|, s.portBase, PORT_SPAN, s.parallel).arrivals) == multiset(AllWorkers(|kept|))
    {
      RoundLosesNoneIff(schedule, st, known, s, w, candidates);
    }
    OneResultEachIff(|kept|, s.portBase, PORT_SPAN, s.parallel, may, cancelled);
  }

  /** The ports of a range of a hundred that cannot be bound. */
  ghost function Unbindable(base: int, bind: Binding): set<int> { set p | base <= p < base + 100 && !bind(p) }

  lemma UnbindableBlocked(base: int, bind: Binding)
    ensures Blocked(NewPorts(base, PORT_SPAN), bind) == Unbindable(base, bind)
  {
    var ports := NewPorts(base, PORT_SPAN);
    assert forall p :: p in Range(ports) <==> base <= p < base + 100;
  }

  /** The condition in numbers: of the hundred ports from the base, as many can be bound as there are
      configurations to test, or as tests run at a time when that is fewer. */
  lemma AmpleInNumbers(n: nat, parallel: nat, base: int, may: Binding -> bool, cancelled: bool)
    ensures Ample(n, parallel, base, PORT_SPAN, may, cancelled) <==>
      ((cancelled ==> n == 0)
       && forall b: Binding | may(b) :: (if n < parallel then n else parallel) + |Unbindable(base, b)| <= 100)
  {
    forall b: Binding
      ensures Fits(n, parallel, base, PORT_SPAN, b) <==>
        (if n < parallel then n else parallel) + |Unbindable(base, b)| <= 100
    {
      UnbindableBlocked(base, b);
    }
  }
}
