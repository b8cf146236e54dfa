/** The cycle as the daemon runs it: runCycle, mergeWithParsed and writeOutputFile of
    internal/daemon/loop.go, TCPPing and the use of XrayTest from internal/daemon/tester.go. Map
    walks and schedules are arbitrary choices; the contracts are those of Cycle. */
module DaemonLoop {
  import opened Bytes
  import opened Cycle
  import opened Limit
  import opened LostResults
  import opened Publish
  import opened Sorting
  import opened State
  import Workers

  /** TCPPing: every target gets its outcome, in whatever order the dials finish. */
  method TCPPing(targets: Configs, w: World) returns (tcp: Pings)
    ensures tcp == Pinged(targets.Keys, w)
  {
    tcp := map[];
    var rest := targets.Keys;
    while rest != {}
      invariant rest <= targets.Keys && tcp.Keys == targets.Keys - rest
      invariant forall h | h in tcp :: tcp[h] == w.ping(h)
      decreases |rest|
    {
      var h :| h in rest;
      rest := rest - {h};
      tcp := tcp[h := w.ping(h)];
    }
  }

  /** The conditions of the test round, step by step: which ports can be bound, and whether the
      cycle has been cancelled. */
  datatype Conditions = Conditions(bind: nat -> (int -> bool), done: nat -> bool)

  /** Calm conditions for the test of n configurations. */
  ghost predicate Calm(s: Settings, c: Conditions, n: nat) {
    Workers.Calm(n, s.parallel, s.portBase, PORT_SPAN, c.bind, c.done)
  }

  /** XrayTest over the kept survivors: at most one result each, its own, in some order. */
  method TestAll(kept: seq<NamedConfig>, s: Settings, w: World, c: Conditions)
    returns (results: seq<TestResult>)
    requires s.parallel > 0
    ensures multiset(results) <= multiset(ResultsFor(w, kept))
    ensures Calm(s, c, |kept|) ==> multiset(results) == multiset(ResultsFor(w, kept))
  {
    results :=
      Workers.XrayTest(|kept|, OutcomeOf(w, kept), s.parallel, s.portBase, PORT_SPAN, c.bind, c.done);
    AllOutcomes(w, kept);
  }

  method TestSurvivors(survivors: seq<NamedConfig>, tcp: Pings, s: Settings, w: World, c: Conditions)
    returns (results: seq<TestResult>)
    requires s.parallel > 0
    ensures multiset(results) <= multiset(ResultsFor(w, Kept(tcp, survivors, s.maxXrayTests)))
    ensures Calm(s, c, |Kept(tcp, survivors, s.maxXrayTests)|) ==>
      multiset(results) == multiset(ResultsFor(w, Kept(tcp, survivors, s.maxXrayTests)))
  {
    if |survivors| == 0 {
      return [];
    }
    var slice := new NamedConfig[|survivors|](i requires 0 <= i < |survivors| => survivors[i]);
    assert slice[..] == survivors;
    var kept := LimitSurvivors(slice, tcp, s.maxXrayTests);
    results := TestAll(slice[..kept], s, w, c);
  }

  class Daemon {
    const store: EntryStore
    var configs: Configs
    var output: bytes

    constructor ()
      ensures store.Valid() && fresh(store) && fresh(store.entries) && store.view == map[] && configs == map[]
    {
      store := new EntryStore();
      configs, output := map[], [];
    }

    method MergeWithParsed(fetch: Fetch)
      requires store.Valid()
      modifies this`configs, store
      ensures store.Valid() && fresh(store.entries - old(store.entries))
      ensures store.view == Merge(old(store.view), fetch.configs, fetch.url, fetch.seen)
      ensures configs == Learn(old(configs), fetch.configs)
    {
      LearnFrom(fetch.configs);
      store.MergeIntoState(fetch.configs, fetch.url, fetch.seen);
    }

    method LearnFrom(fetched: Configs)
      modifies this`configs
      ensures configs == Learn(old(configs), fetched)
    {
      var rest := fetched.Keys;
      while rest != {}
        invariant rest <= fetched.Keys
        invariant forall h :: h in configs <==> h in old(configs) || (h in fetched && h !in rest)
        invariant forall h | h in configs ::
          configs[h] == if h in old(configs) then old(configs)[h] else fetched[h]
        decreases |rest|
      {
        var h :| h in rest;
        rest := rest - {h};
        if h !in configs {
          configs := configs[h := fetched[h]];
        }
      }
      assert forall h :: h in configs <==> h in Learn(old(configs), fetched);
    }

    /** The candidates one by one: those without an answer are demoted, the others survive. */
    method Sift(candidates: seq<Hash>, tcp: Pings, now: int) returns (survivors: seq<NamedConfig>)
      requires store.Valid()
      modifies store`view, store.entries
      ensures store.Valid() && store.view == DemoteAll(old(store.view), candidates, tcp, now)
      ensures survivors == Survivors(candidates, tcp, configs)
    {
      survivors := [];
      for i := 0 to |candidates|
        invariant store.Valid() && store.view == DemoteAll(old(store.view), candidates[..i], tcp, now)
        invariant survivors == Survivors(candidates[..i], tcp, configs)
      {
        assert candidates[..i + 1][..i] == candidates[..i];
        var more := SiftOne(candidates[i], tcp, now);
        survivors := survivors + more;
      }
      assert candidates[..|candidates|] == candidates;
    }

    method SiftOne(h: Hash, tcp: Pings, now: int) returns (survivor: seq<NamedConfig>)
      requires store.Valid()
      modifies store`view, store.entries
      ensures store.Valid() && store.view == DemoteOne(old(store.view), h, tcp, now)
      ensures survivor == SurvivorOf(h, tcp, configs)
    {
      if !(h in tcp && tcp[h].success) {
        store.Lose(h, now);
        return [];
      }
      if h in configs {
        return [NamedConfig(h, configs[h])];
      }
      return [];
    }

    method CandidateConfigs(candidates: seq<Hash>, ghost due: set<Hash>) returns (targets: Configs)
      requires Enumerates(candidates, due)
      ensures targets.Keys == due * configs.Keys && forall h | h in targets :: targets[h] == configs[h]
    {
      targets := map[];
      for i := 0 to |candidates|
        invariant forall h :: h in targets <==> h in candidates[..i] && h in configs
        invariant forall h | h in targets :: targets[h] == configs[h]
      {
        assert candidates[..i + 1] == candidates[..i] + [candidates[i]];
        if candidates[i] in configs {
          targets := targets[candidates[i] := configs[candidates[i]]];
        }
      }
      assert candidates[..|candidates|] == candidates;
    }

    /** lost are the tested hashes that got no result; under calm conditions there are none. */
    method TestCandidates(candidates: seq<Hash>, targets: Configs, s: Settings, w: World, c: Conditions)
      returns (ghost lost: set<Hash>)
      requires store.Valid() && s.parallel > 0 && Enumerates(candidates, Due(store.view, s, w.now))
      requires targets.Keys == Due(store.view, s, w.now) * configs.Keys && targets.Keys != {}
      modifies store`view, store.entries
      ensures store.Valid() && store.view == CycleTable(old(store.view), configs, s, w, lost)
      ensures lost <= ToTest(old(store.view), configs, s, w)
      ensures Calm(s, c, |ToTest(old(store.view), configs, s, w)|) ==> lost == {}
    {
      ghost var was := store.view;
      var tcp := TCPPing(targets, w);
      var survivors := Sift(candidates, tcp, w.now);
      var results := TestSurvivors(survivors, tcp, s, w, c);
      lost := Lost(was, configs, s, w, results);
      AnyOrder(was, configs, s, w, candidates, results);
      KeptCount(was, configs, s, w, candidates);
      if Calm(s, c, |ToTest(was, configs, s, w)|) {
        CompleteLosesNothing(was, configs, s, w, candidates, results);
      }
      store.ApplyResults(results, w.now, s.ceiling);
    }

    /** Selection and tests; nothing changes when there is nothing to test. */
    method SelectAndTest(s: Settings, w: World, c: Conditions) returns (ghost lost: set<Hash>)
      requires store.Valid() && s.parallel > 0
      modifies store`view, store.entries
      ensures store.Valid() && store.view == CycleTable(old(store.view), configs, s, w, lost)
      ensures lost <= ToTest(old(store.view), configs, s, w)
      ensures Calm(s, c, |ToTest(old(store.view), configs, s, w)|) ==> lost == {}
    {
      ghost var due := Due(store.view, s, w.now);
      var candidates := store.SelectCandidates(s.interval, s.keepSuccessful, w.now);
      lost := {};
      NothingDue(store.view, configs, s, w, lost);
      if |candidates| == 0 {
        assert due * configs.Keys == {};
        return;
      }
      var targets := CandidateConfigs(candidates, due);
      if targets.Keys == {} {
        return;
      }
      lost := TestCandidates(candidates, targets, s, w, c);
    }

    /** The test half of the cycle. However its maps are walked and its goroutines scheduled, the
        state and the exact bytes of the file are the ones the specification names. */
    method TestCycle(s: Settings, w: World, c: Conditions) returns (ghost lost: set<Hash>)
      requires store.Valid() && s.parallel > 0
      modifies this`output, store`view, store.entries
      ensures store.Valid() && store.view == CycleTable(old(store.view), configs, s, w, lost)
      ensures lost <= ToTest(old(store.view), configs, s, w)
      ensures Calm(s, c, |ToTest(old(store.view), configs, s, w)|) ==> lost == {}
      ensures output == PublishedText(store.view)
    {
      lost := SelectAndTest(s, w, c);
      WriteOutputFile();
    }

    method WriteOutputFile()
      requires store.Valid()
      modifies this`output
      ensures store.Valid() && output == PublishedText(store.view)
    {
      output := OutputText(store);
    }

    method RunCycle(fetches: seq<Fetch>, s: Settings, w: World, c: Conditions) returns (ghost lost: set<Hash>)
      requires store.Valid() && s.parallel > 0
      modifies this`configs, this`output, store, store.entries
      ensures store.Valid() && fresh(store.entries - old(store.entries))
      ensures configs == LearnAll(old(configs), fetches)
      ensures store.view == CycleTable(MergeAll(old(store.view), fetches), configs, s, w, lost)
      ensures lost <= ToTest(MergeAll(old(store.view), fetches), configs, s, w)
      ensures Calm(s, c, |ToTest(MergeAll(old(store.view), fetches), configs, s, w)|) ==> lost == {}
      ensures output == PublishedText(store.view)
    {
      for i := 0 to |fetches|
        invariant store.Valid() && fresh(store.entries - old(store.entries))
        invariant configs == LearnAll(old(configs), fetches[..i])
        invariant store.view == MergeAll(old(store.view), fetches[..i])
      {
        assert fetches[..i + 1][..i] == fetches[..i];
        MergeWithParsed(fetches[i]);
      }
      assert fetches[..|fetches|] == fetches;
      lost := TestCycle(s, w, c);
    }
  }
}
