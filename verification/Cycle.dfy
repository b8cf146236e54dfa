/** One test cycle on values: what runCycle and mergeWithParsed of internal/daemon/loop.go make of
    state, configurations and file. The network is a parameter: what a TCP ping and a pipeline run
    would report for each hash. Map walks and arrival orders are arbitrary, and the result is proved
    not to depend on them. */
module Cycle {
  import opened Bytes
  import opened Limit
  import opened Options
  import opened Publish
  import opened Sorting
  import opened State

  type Configs = map<Hash, Config>

  datatype Settings = Settings(
    interval: int, keepSuccessful: bool, ceiling: int, maxXrayTests: int, parallel: nat, portBase: int)

  /** What a pipeline run reports; latencies in milliseconds. */
  datatype Report = Report(success: bool, responseMs: int, totalMs: int)

  /** The outside of one cycle. */
  datatype World = World(ping: Hash -> Ping, report: Hash -> Report, now: int)

  /** One subscription, fetched and parsed; a failed fetch is an empty map. */
  datatype Fetch = Fetch(url: bytes, configs: Configs, seen: Clock)

  // ---- specification -----------------------------------------------------------------

  /** mergeWithParsed: a configuration that is known already stays. */
  function Learn(known: Configs, fetched: Configs): Configs { fetched + known }

  function LearnAll(known: Configs, fetches: seq<Fetch>): Configs {
    if fetches == [] then known
    else Learn(LearnAll(known, fetches[..|fetches| - 1]), fetches[|fetches| - 1].configs)
  }

  function MergeAll(st: Table, fetches: seq<Fetch>): Table {
    if fetches == [] then st
    else
      var last := fetches[|fetches| - 1];
      Merge(MergeAll(st, fetches[..|fetches| - 1]), last.configs, last.url, last.seen)
  }

  /** The latency the daemon records: the end-to-end one when it was measured. */
  function ResultLatency(r: Report): int { if r.responseMs > 0 then r.responseMs else r.totalMs }

  function ResultOf(w: World): Hash -> TestResult {
    (h: Hash) => TestResult(h, w.report(h).success, ResultLatency(w.report(h)))
  }

  function Pinged(targets: set<Hash>, w: World): Pings { map h | h in targets :: w.ping(h) }

  predicate Answered(tcp: Pings, h: Hash) { h in tcp && tcp[h].success }

  function Due(st: Table, s: Settings, now: int): set<Hash> {
    Candidates(st, s.interval, s.keepSuccessful, now)
  }

  /** The candidates that answer the ping. */
  function Reached(targets: set<Hash>, w: World): set<Hash> { set h | h in targets && w.ping(h).success }

  /** Those of them that go through the real test. */
  function Tested(targets: set<Hash>, s: Settings, w: World): set<Hash> {
    KeptSet(Pinged(targets, w), Reached(targets, w), s.maxXrayTests)
  }

  /** The hashes that a cycle from this state puts through the real test. */
  function ToTest(st: Table, known: Configs, s: Settings, w: World): set<Hash> {
    Tested(Due(st, s, w.now) * known.Keys, s, w)
  }

  /** One entry after the cycle, by itself. lost are the hashes whose test brought no result, for
      want of a port or because the cycle was cancelled; they stay as they are. */
  function EntryAfter(
      e: Entry, h: Hash, due: set<Hash>, targets: set<Hash>, s: Settings, w: World, lost: set<Hash>): Entry
  {
    if h in Tested(targets, s, w) - lost then ApplyOne(e, ResultOf(w)(h), w.now, s.ceiling)
    else if h in due && h !in Reached(targets, w) then MarkUnreachable(e, w.now)
    else e
  }

  /** The state after the cycle. Nothing happens when no candidate has a parsed configuration. */
  function CycleTable(st: Table, known: Configs, s: Settings, w: World, lost: set<Hash>): Table {
    var due := Due(st, s, w.now);
    var targets := due * known.Keys;
    if targets == {} then st else map h | h in st :: EntryAfter(st[h], h, due, targets, s, w, lost)
  }

  // ---- the same, in some order -------------------------------------------------------

  function DemoteOne(st: Table, h: Hash, tcp: Pings, now: int): Table {
    if h in st && !Answered(tcp, h) then st[h := MarkUnreachable(st[h], now)] else st
  }

  /** The demotions, candidate by candidate. */
  function DemoteAll(st: Table, candidates: seq<Hash>, tcp: Pings, now: int): Table {
    if candidates == [] then st
    else DemoteOne(DemoteAll(st, candidates[..|candidates| - 1], tcp, now), candidates[|candidates| - 1], tcp, now)
  }

  function SurvivorOf(h: Hash, tcp: Pings, known: Configs): seq<NamedConfig> {
    if Answered(tcp, h) && h in known then [NamedConfig(h, known[h])] else []
  }

  /** The survivors, in the order of the candidates. */
  function Survivors(candidates: seq<Hash>, tcp: Pings, known: Configs): seq<NamedConfig> {
    if candidates == [] then []
    else
      Survivors(candidates[..|candidates| - 1], tcp, known) + SurvivorOf(candidates[|candidates| - 1], tcp, known)
  }

  lemma {:induction false} DemoteAt(st: Table, candidates: seq<Hash>, tcp: Pings, now: int, h: Hash)
    ensures DemoteAll(st, candidates, tcp, now).Keys == st.Keys
    ensures h in st ==> (DemoteAll(st, candidates, tcp, now)[h] ==
      if h in candidates && !Answered(tcp, h) then MarkUnreachable(st[h], now) else st[h])
  {
    if candidates != [] {
      DemoteAt(st, candidates[..|candidates| - 1], tcp, now, h);
      assert candidates == candidates[..|candidates| - 1] + [candidates[|candidates| - 1]];
    }
  }

  lemma {:induction false} SurvivorsAre(candidates: seq<Hash>, tcp: Pings, known: Configs)
    requires Distinct(candidates)
    ensures DistinctNames(Survivors(candidates, tcp, known))
    ensures forall h :: h in Hashes(Survivors(candidates, tcp, known)) <==>
      h in candidates && Answered(tcp, h) && h in known
  {
    if candidates != [] {
      var front, h := candidates[..|candidates| - 1], candidates[|candidates| - 1];
      SurvivorsAre(front, tcp, known);
      assert candidates == front + [h];
      var before := Survivors(front, tcp, known);
      if Answered(tcp, h) && h in known {
        HashesAppend(before, NamedConfig(h, known[h]));
        assert forall i | 0 <= i < |before| :: before[i].hash == Hashes(before)[i];
      } else {
        assert Survivors(candidates, tcp, known) == before;
      }
    }
  }

  lemma HashesAppend(s: seq<NamedConfig>, x: NamedConfig)
    ensures Hashes(s + [x]) == Hashes(s) + [x.hash]
  {
  }

  /** The results of testing the given survivors, in their order. */
  function ResultsFor(w: World, kept: seq<NamedConfig>): seq<TestResult> { Map(ResultOf(w), Hashes(kept)) }

  lemma KeptDistinct(tcp: Pings, survivors: seq<NamedConfig>, limit: int)
    requires DistinctNames(survivors)
    ensures DistinctNames(Kept(tcp, survivors, limit))
  {
    if Capped(|survivors|, limit) {
      SortedRanks(tcp, survivors);
      DistinctNamesPermuted(survivors, SortBy(Rank(tcp), survivors));
    }
  }

  function HashesOfResults(results: seq<TestResult>): set<Hash> { set r | r in results :: r.hash }

  lemma ArrivedDistinct(w: World, kept: seq<NamedConfig>, results: seq<TestResult>)
    requires DistinctNames(kept) && multiset(results) <= multiset(ResultsFor(w, kept))
    ensures forall r | r in results :: r.hash in Hashes(kept) && r == ResultOf(w)(r.hash)
    ensures DistinctHashes(results)
  {
    var own := ResultsFor(w, kept);
    assert Distinct(own);
    forall r | r in results ensures r.hash in Hashes(kept) && r == ResultOf(w)(r.hash) {
      assert r in multiset(results);
      assert r in own;
      var i :| 0 <= i < |own| && own[i] == r;
      assert Hashes(kept)[i] == r.hash;
    }
    PartDistinct(results, own);
  }

  /** A kept hash has its own result unless that was lost, and no other hash has one. */
  lemma ResultsAt(w: World, kept: seq<NamedConfig>, results: seq<TestResult>, h: Hash)
    requires DistinctNames(kept) && multiset(results) <= multiset(ResultsFor(w, kept))
    ensures DistinctHashes(results) && (h in HashesOfResults(results) ==> h in Hashes(kept))
    ensures ResultFor(results, h) == if h in HashesOfResults(results) then Some(ResultOf(w)(h)) else None
  {
    ArrivedDistinct(w, kept, results);
    if h in HashesOfResults(results) {
      var r :| r in results && r.hash == h;
      OnlyResult(results, r);
    }
  }

  lemma AllArrived(w: World, kept: seq<NamedConfig>, results: seq<TestResult>)
    requires multiset(results) == multiset(ResultsFor(w, kept))
    ensures Elements(Hashes(kept)) <= HashesOfResults(results)
  {
    var own := ResultsFor(w, kept);
    SameMembers(own, results);
    forall h | h in Hashes(kept) ensures h in HashesOfResults(results) {
      var i :| 0 <= i < |kept| && Hashes(kept)[i] == h;
      assert own[i] in results;
    }
  }

  /** The survivors are the reached targets, and the kept ones those that get tested. */
  lemma SurvivorSets(candidates: seq<Hash>, known: Configs, s: Settings, w: World, due: set<Hash>)
    requires Enumerates(candidates, due)
    ensures var targets := due * known.Keys;
      var tcp := Pinged(targets, w);
      var survivors := Survivors(candidates, tcp, known);
      && DistinctNames(survivors)
      && Elements(Hashes(Kept(tcp, survivors, s.maxXrayTests))) == Tested(targets, s, w)
  {
    var targets := due * known.Keys;
    var tcp := Pinged(targets, w);
    var survivors := Survivors(candidates, tcp, known);
    SurvivorsAre(candidates, tcp, known);
    assert Elements(Hashes(survivors)) == Reached(targets, w);
    KeptAreTheBest(tcp, survivors, s.maxXrayTests);
  }

  /** What the survivors of a walk over the candidates would report, in the order of the kept. */
  function FullResults(known: Configs, s: Settings, w: World, candidates: seq<Hash>, tcp: Pings): seq<TestResult> {
    ResultsFor(w, Kept(tcp, Survivors(candidates, tcp, known), s.maxXrayTests))
  }

  function TcpOf(st: Table, known: Configs, s: Settings, w: World): Pings {
    Pinged(Due(st, s, w.now) * known.Keys, w)
  }

  /** In whatever order the candidates are walked, as many survivors are kept as get tested. */
  lemma KeptCount(st: Table, known: Configs, s: Settings, w: World, candidates: seq<Hash>)
    requires Enumerates(candidates, Due(st, s, w.now))
    ensures var tcp := TcpOf(st, known, s, w);
      var kept := Kept(tcp, Survivors(candidates, tcp, known), s.maxXrayTests);
      DistinctNames(kept) && Elements(Hashes(kept)) == ToTest(st, known, s, w) && |kept| == |ToTest(st, known, s, w)|
  {
    var tcp := TcpOf(st, known, s, w);
    var kept := Kept(tcp, Survivors(candidates, tcp, known), s.maxXrayTests);
    SurvivorSets(candidates, known, s, w, Due(st, s, w.now));
    KeptDistinct(tcp, Survivors(candidates, tcp, known), s.maxXrayTests);
    assert Distinct(Hashes(kept));
    DistinctSize(Hashes(kept));
  }

  /** candidates and results are what some schedule of the cycle came up with: a walk over what is
      due, and results of the kept survivors in the order of their arrival. */
  ghost predicate Scheduled(
      st: Table, known: Configs, s: Settings, w: World, candidates: seq<Hash>, results: seq<TestResult>)
  {
    && Enumerates(candidates, Due(st, s, w.now)) && Due(st, s, w.now) * known.Keys != {}
    && multiset(results) <= multiset(FullResults(known, s, w, candidates, TcpOf(st, known, s, w)))
  }

  /** None of them is missing. */
  ghost predicate Complete(
      st: Table, known: Configs, s: Settings, w: World, candidates: seq<Hash>, results: seq<TestResult>)
  {
    multiset(results) == multiset(FullResults(known, s, w, candidates, TcpOf(st, known, s, w)))
  }

  /** The hashes that were tested and have no result. */
  function Lost(st: Table, known: Configs, s: Settings, w: World, results: seq<TestResult>): set<Hash> {
    ToTest(st, known, s, w) - HashesOfResults(results)
  }

  /** The state a schedule leaves. */
  function Outcome(
      st: Table, known: Configs, s: Settings, w: World, candidates: seq<Hash>, results: seq<TestResult>): Table
  {
    ApplyAll(DemoteAll(st, candidates, TcpOf(st, known, s, w), w.now), results, w.now, s.ceiling)
  }

  /** Confluence of the cycle: in whatever order the candidates are walked, and in whatever order
      the results of the kept survivors come in, the state afterwards is the same. */
  lemma AnyOrder(st: Table, known: Configs, s: Settings, w: World, candidates: seq<Hash>, results: seq<TestResult>)
    requires Scheduled(st, known, s, w, candidates, results)
    ensures Outcome(st, known, s, w, candidates, results) ==
      CycleTable(st, known, s, w, Lost(st, known, s, w, results))
  {
    var due, lost := Due(st, s, w.now), Lost(st, known, s, w, results);
    var demoted := DemoteAll(st, candidates, TcpOf(st, known, s, w), w.now);
    DemoteAt(st, candidates, TcpOf(st, known, s, w), w.now, []);
    ApplyKeeps(demoted, results, w.now, s.ceiling);
    forall h | h in st
      ensures h in demoted && h in ApplyAll(demoted, results, w.now, s.ceiling)
      ensures ApplyAll(demoted, results, w.now, s.ceiling)[h] ==
        EntryAfter(st[h], h, due, due * known.Keys, s, w, lost)
    {
      AnyOrderAt(st, known, s, w, candidates, results, h);
    }
  }

  lemma CompleteLosesNothing(
      st: Table, known: Configs, s: Settings, w: World, candidates: seq<Hash>, results: seq<TestResult>)
    requires Scheduled(st, known, s, w, candidates, results) && Complete(st, known, s, w, candidates, results)
    ensures Lost(st, known, s, w, results) == {}
  {
    var tcp := TcpOf(st, known, s, w);
    SurvivorSets(candidates, known, s, w, Due(st, s, w.now));
    AllArrived(w, Kept(tcp, Survivors(candidates, tcp, known), s.maxXrayTests), results);
  }

  /** Two schedules of one cycle that lose the same results, as any two complete ones do, agree on
      the state, and on the bytes of the file in whatever order the working entries are collected. */
  lemma SchedulesAgree(st: Table, known: Configs, s: Settings, w: World,
      candidates1: seq<Hash>, results1: seq<TestResult>, walk1: seq<Hash>,
      candidates2: seq<Hash>, results2: seq<TestResult>, walk2: seq<Hash>)
    requires Scheduled(st, known, s, w, candidates1, results1) && Scheduled(st, known, s, w, candidates2, results2)
    requires Lost(st, known, s, w, results1) == Lost(st, known, s, w, results2)
      || (Complete(st, known, s, w, candidates1, results1) && Complete(st, known, s, w, candidates2, results2))
    requires Enumerates(walk1, WorkingKeys(Outcome(st, known, s, w, candidates1, results1)))
    requires Enumerates(walk2, WorkingKeys(Outcome(st, known, s, w, candidates2, results2)))
    ensures Outcome(st, known, s, w, candidates1, results1) == Outcome(st, known, s, w, candidates2, results2)
    ensures JoinLines(Raws(Lines(SortBy(Shown, EntriesOf(Outcome(st, known, s, w, candidates1, results1), walk1)))))
      == JoinLines(Raws(Lines(SortBy(Shown, EntriesOf(Outcome(st, known, s, w, candidates2, results2), walk2)))))
  {
    AnyOrder(st, known, s, w, candidates1, results1);
    AnyOrder(st, known, s, w, candidates2, results2);
    if Complete(st, known, s, w, candidates1, results1) && Complete(st, known, s, w, candidates2, results2) {
      CompleteLosesNothing(st, known, s, w, candidates1, results1);
      CompleteLosesNothing(st, known, s, w, candidates2, results2);
    }
    var after := CycleTable(st, known, s, w, Lost(st, known, s, w, results1));
    AnyWalkPublishes(after, walk1);
    AnyWalkPublishes(after, walk2);
  }

  lemma AnyOrderAt(
      st: Table, known: Configs, s: Settings, w: World, candidates: seq<Hash>, results: seq<TestResult>, h: Hash)
    requires Scheduled(st, known, s, w, candidates, results) && h in st
    ensures var due, lost := Due(st, s, w.now), Lost(st, known, s, w, results);
      && h in Outcome(st, known, s, w, candidates, results)
      && Outcome(st, known, s, w, candidates, results)[h] ==
        EntryAfter(st[h], h, due, due * known.Keys, s, w, lost)
  {
    var due := Due(st, s, w.now);
    var targets, tcp := due * known.Keys, TcpOf(st, known, s, w);
    var survivors := Survivors(candidates, tcp, known);
    var kept := Kept(tcp, survivors, s.maxXrayTests);
    SurvivorSets(candidates, known, s, w, due);
    KeptDistinct(tcp, survivors, s.maxXrayTests);
    ResultsAt(w, kept, results, h);
    DemoteAt(st, candidates, tcp, w.now, h);
    assert h in Hashes(kept) <==> h in Elements(Hashes(kept));
    ApplyAt(DemoteAll(st, candidates, tcp, w.now), results, w.now, s.ceiling, h);
    TestedAnswered(targets, s, w, h);
  }

  lemma NothingDue(st: Table, known: Configs, s: Settings, w: World, lost: set<Hash>)
    ensures Due(st, s, w.now) * known.Keys == {} ==> CycleTable(st, known, s, w, lost) == st
  {
  }

  lemma TestedAnswered(targets: set<Hash>, s: Settings, w: World, h: Hash)
    ensures h in Tested(targets, s, w) ==> Answered(Pinged(targets, w), h)
    ensures h in Reached(targets, w) <==> Answered(Pinged(targets, w), h)
  {
  }
}
