/** The per-configuration state machine: internal/daemon/state.go and MergeIntoState of
    internal/daemon/fetcher.go. Times are integers on one clock. */
module State {
  import opened Bytes
  import opened Options
  import opened Sorting

  type Hash = bytes

  datatype Status = Unknown | Unreachable | Failed | Working

  /** A ConfigEntry as a value. */
  datatype Entry = Entry(
    raw: bytes, host: bytes, port: int, protocol: bytes, sourceUrl: bytes, firstSeen: int,
    lastTested: int, lastSuccess: int, successCount: int, failCount: int, status: Status, latencyMs: int)

  /** What the daemon reads off a parsed configuration. */
  datatype Config = Config(raw: bytes, host: bytes, port: int, protocol: bytes)

  datatype TestResult = TestResult(hash: Hash, success: bool, latencyMs: int)

  type Table = map<Hash, Entry>

  /** The clock reading taken when a hash is filed for the first time. */
  type Clock = map<Hash, int>

  function SeenAt(seen: Clock, h: Hash): int { if h in seen then seen[h] else NEVER }

  /** The zero time.Time. */
  const NEVER: int := 0

  // ---- specification -----------------------------------------------------------------

  function NewEntry(c: Config, url: bytes, seen: int): Entry {
    Entry(c.raw, c.host, c.port, c.protocol, url, seen, NEVER, NEVER, 0, 0, Unknown, 0)
  }

  /** MergeIntoState: entries that are there stay as they are. */
  function Merge(st: Table, configs: map<Hash, Config>, url: bytes, seen: Clock): Table {
    (map h | h in configs :: NewEntry(configs[h], url, SeenAt(seen, h))) + st
  }

  /** A hash that is already known keeps its entry. */
  function WithNew(st: Table, h: Hash, c: Config, url: bytes, seen: int): Table {
    if h in st then st else st[h := NewEntry(c, url, seen)]
  }

  /** The fetched hashes merged one at a time, in some order. */
  function MergeEach(st: Table, configs: map<Hash, Config>, order: seq<Hash>, url: bytes, seen: Clock): Table
    requires forall h | h in order :: h in configs
  {
    if order == [] then st
    else
      var h := order[|order| - 1];
      WithNew(MergeEach(st, configs, order[..|order| - 1], url, seen), h, configs[h], url, SeenAt(seen, h))
  }

  lemma {:induction false} MergeEachAt(
      st: Table, configs: map<Hash, Config>, order: seq<Hash>, url: bytes, seen: Clock, h: Hash)
    requires forall x | x in order :: x in configs
    ensures h in MergeEach(st, configs, order, url, seen) <==> h in st || h in order
    ensures h in st ==> MergeEach(st, configs, order, url, seen)[h] == st[h]
    ensures h in order && h !in st ==>
      MergeEach(st, configs, order, url, seen)[h] == NewEntry(configs[h], url, SeenAt(seen, h))
  {
    if order != [] {
      assert order == order[..|order| - 1] + [order[|order| - 1]];
      MergeEachAt(st, configs, order[..|order| - 1], url, seen, h);
    }
  }

  /** Merging does not depend on the order in which the map is walked. */
  lemma MergeEachIsMerge(st: Table, configs: map<Hash, Config>, order: seq<Hash>, url: bytes, seen: Clock)
    requires forall h :: h in order <==> h in configs
    ensures MergeEach(st, configs, order, url, seen) == Merge(st, configs, url, seen)
  {
    forall h ensures h in MergeEach(st, configs, order, url, seen) <==> h in Merge(st, configs, url, seen) {
      MergeEachAt(st, configs, order, url, seen, h);
    }
    forall h | h in Merge(st, configs, url, seen)
      ensures MergeEach(st, configs, order, url, seen)[h] == Merge(st, configs, url, seen)[h]
    {
      MergeEachAt(st, configs, order, url, seen, h);
    }
  }

  predicate IsCandidate(e: Entry, interval: int, keepSuccessful: bool, now: int) {
    if e.status.Working? then keepSuccessful && now - e.lastTested >= interval else true
  }

  function Candidates(st: Table, interval: int, keepSuccessful: bool, now: int): set<Hash> {
    set h | h in st && IsCandidate(st[h], interval, keepSuccessful, now)
  }

  /** Whether a result counts as a success under the operator's latency ceiling. */
  predicate Accepted(r: TestResult, ceiling: int) { r.success && !(ceiling > 0 && r.latencyMs > ceiling) }

  function ApplyOne(e: Entry, r: TestResult, now: int, ceiling: int): Entry {
    if Accepted(r, ceiling) then
      e.(lastTested := now, status := Working, lastSuccess := now, successCount := e.successCount + 1,
         latencyMs := r.latencyMs)
    else
      e.(lastTested := now, failCount := e.failCount + 1,
         status := if e.status.Unreachable? then Unreachable else Failed,
         latencyMs := if r.latencyMs > 0 then r.latencyMs else e.latencyMs)
  }

  function ApplyTo(st: Table, r: TestResult, now: int, ceiling: int): Table {
    if r.hash in st then st[r.hash := ApplyOne(st[r.hash], r, now, ceiling)] else st
  }

  function ApplyAll(st: Table, results: seq<TestResult>, now: int, ceiling: int): Table {
    if results == [] then st
    else ApplyTo(ApplyAll(st, results[..|results| - 1], now, ceiling), results[|results| - 1], now, ceiling)
  }

  function MarkUnreachable(e: Entry, now: int): Entry {
    if e.status.Unreachable? then e else e.(status := Unreachable, lastTested := now)
  }

  // ---- order of the results ----------------------------------------------------------

  ghost predicate DistinctHashes(results: seq<TestResult>) {
    forall i, j | 0 <= i < j < |results| :: results[i].hash != results[j].hash
  }

  /** The result that counts for a hash. */
  function ResultFor(results: seq<TestResult>, h: Hash): (r: Option<TestResult>)
    ensures r.Some? ==> r.value in results && r.value.hash == h
    ensures r.None? ==> forall x | x in results :: x.hash != h
  {
    if results == [] then None
    else
      assert results == results[..|results| - 1] + [results[|results| - 1]];
      if results[|results| - 1].hash == h then Some(results[|results| - 1]) else ResultFor(results[..|results| - 1], h)
  }

  /** At most one result per hash: each entry is changed by its own result and nothing else. */
  lemma {:induction false} ApplyAt(st: Table, results: seq<TestResult>, now: int, ceiling: int, h: Hash)
    requires DistinctHashes(results) && h in st
    ensures h in ApplyAll(st, results, now, ceiling)
    ensures ApplyAll(st, results, now, ceiling)[h] ==
      match ResultFor(results, h) case None => st[h] case Some(r) => ApplyOne(st[h], r, now, ceiling)
  {
    if results != [] {
      var front := results[..|results| - 1];
      ApplyAt(st, front, now, ceiling, h);
      if ResultFor(front, h).Some? {
        var i :| 0 <= i < |front| && front[i] == ResultFor(front, h).value;
        assert results[i].hash != results[|results| - 1].hash;
      }
    }
  }

  lemma OnlyResult(results: seq<TestResult>, r: TestResult)
    requires DistinctHashes(results) && r in results
    ensures ResultFor(results, r.hash) == Some(r)
  {
  }

  lemma DistinctHashesPermuted(a: seq<TestResult>, b: seq<TestResult>)
    requires DistinctHashes(a) && multiset(a) == multiset(b)
    ensures DistinctHashes(b)
  {
    assert Distinct(a);
    PermutedDistinct(a, b);
    SameMembers(a, b);
    forall i, j | 0 <= i < j < |b| ensures b[i].hash != b[j].hash {
      assert b[i] in a && b[j] in a;
      OnlyResult(a, b[i]);
      OnlyResult(a, b[j]);
    }
  }

  /** The order in which results arrived does not matter. */
  lemma ApplyPermuted(st: Table, a: seq<TestResult>, b: seq<TestResult>, now: int, ceiling: int)
    requires DistinctHashes(a) && multiset(a) == multiset(b)
    ensures ApplyAll(st, a, now, ceiling) == ApplyAll(st, b, now, ceiling)
  {
    DistinctHashesPermuted(a, b);
    SameMembers(a, b);
    ApplyKeeps(st, a, now, ceiling);
    ApplyKeeps(st, b, now, ceiling);
    forall h | h in st ensures ApplyAll(st, a, now, ceiling)[h] == ApplyAll(st, b, now, ceiling)[h] {
      ApplyAt(st, a, now, ceiling, h);
      ApplyAt(st, b, now, ceiling, h);
      if ResultFor(a, h).Some? {
        OnlyResult(b, ResultFor(a, h).value);
      }
    }
  }

  // ---- what a result means -----------------------------------------------------------

  /** before and after a test with this outcome: it counts as a success when the test passed and,
      under a positive ceiling, was not slower than that. A success makes the entry work and is dated
      and counted with its latency; anything else is counted as a failure and leaves the date of the
      last success alone. A failure does not make an unreachable entry failed, and records only a
      positive latency. */
  ghost predicate Recorded(before: Entry, after: Entry, passed: bool, latencyMs: int, now: int, ceiling: int) {
    && after.raw == before.raw && after.host == before.host && after.port == before.port
    && after.protocol == before.protocol && after.sourceUrl == before.sourceUrl && after.firstSeen == before.firstSeen
    && after.lastTested == now
    && (passed && (ceiling <= 0 || latencyMs <= ceiling) ==>
      && after.status.Working? && after.lastSuccess == now && after.latencyMs == latencyMs
      && after.successCount == before.successCount + 1 && after.failCount == before.failCount)
    && (!passed || (ceiling > 0 && latencyMs > ceiling) ==>
      && (before.status.Unreachable? ==> after.status.Unreachable?)
      && (!before.status.Unreachable? ==> after.status.Failed?)
      && after.lastSuccess == before.lastSuccess && after.successCount == before.successCount
      && after.failCount == before.failCount + 1
      && after.latencyMs == (if latencyMs > 0 then latencyMs else before.latencyMs))
  }

  lemma ApplyOneRecords(e: Entry, r: TestResult, now: int, ceiling: int)
    ensures Recorded(e, ApplyOne(e, r, now, ceiling), r.success, r.latencyMs, now, ceiling)
  {
  }

  /** The one result of a hash is recorded, wherever in the round it comes. */
  lemma ResultRecorded(st: Table, results: seq<TestResult>, now: int, ceiling: int, r: TestResult)
    requires DistinctHashes(results) && r in results && r.hash in st
    ensures r.hash in ApplyAll(st, results, now, ceiling)
    ensures Recorded(st[r.hash], ApplyAll(st, results, now, ceiling)[r.hash], r.success, r.latencyMs, now, ceiling)
  {
    ApplyAt(st, results, now, ceiling, r.hash);
    OnlyResult(results, r);
  }

  // ---- counters ----------------------------------------------------------------------

  function Tests(e: Entry): int { e.successCount + e.failCount }

  /** The tests recorded for the listed hashes; a hash without an entry has none. */
  function TotalTests(st: Table, hashes: seq<Hash>): int {
    if hashes == [] then 0
    else
      var h := hashes[|hashes| - 1];
      TotalTests(st, hashes[..|hashes| - 1]) + (if h in st then Tests(st[h]) else 0)
  }

  function Applied(st: Table, results: seq<TestResult>): nat {
    if results == [] then 0
    else Applied(st, results[..|results| - 1]) + (if results[|results| - 1].hash in st then 1 else 0)
  }

  /** Changing one of the listed entries changes the total by as much. */
  lemma {:induction false} TotalUpdate(st: Table, hashes: seq<Hash>, h: Hash, e: Entry)
    requires Distinct(hashes) && h in st
    ensures TotalTests(st[h := e], hashes) ==
      TotalTests(st, hashes) + (if h in hashes then Tests(e) - Tests(st[h]) else 0)
  {
    if hashes != [] {
      var front, last := hashes[..|hashes| - 1], hashes[|hashes| - 1];
      assert hashes == front + [last] && last !in front;
      TotalUpdate(st, front, h, e);
    }
  }

  lemma {:induction false} ApplyKeeps(st: Table, results: seq<TestResult>, now: int, ceiling: int)
    ensures ApplyAll(st, results, now, ceiling).Keys == st.Keys
  {
    if results != [] {
      ApplyKeeps(st, results[..|results| - 1], now, ceiling);
    }
  }

  /** Conservation: over any enumeration of the state the success and fail counts together grow by
      exactly the number of results that were applied, repeated hashes included. */
  lemma {:induction false} TotalGrows(st: Table, hashes: seq<Hash>, results: seq<TestResult>, now: int, ceiling: int)
    requires Distinct(hashes) && forall h | h in st :: h in hashes
    ensures TotalTests(ApplyAll(st, results, now, ceiling), hashes) == TotalTests(st, hashes) + Applied(st, results)
  {
    if results != [] {
      var front, last := results[..|results| - 1], results[|results| - 1];
      var before := ApplyAll(st, front, now, ceiling);
      TotalGrows(st, hashes, front, now, ceiling);
      ApplyKeeps(st, front, now, ceiling);
      if last.hash in st {
        TotalUpdate(before, hashes, last.hash, ApplyOne(before[last.hash], last, now, ceiling));
      }
    }
  }

  // ---- the state in memory -----------------------------------------------------------

  class ConfigEntry {
    ghost const key: Hash  // the hash it is filed under
    const raw: bytes
    const host: bytes
    const port: int
    const protocol: bytes
    const sourceUrl: bytes
    const firstSeen: int
    var lastTested: int
    var lastSuccess: int
    var successCount: int
    var failCount: int
    var status: Status
    var latencyMs: int

    function View(): Entry
      reads this
    {
      Entry(raw, host, port, protocol, sourceUrl, firstSeen,
            lastTested, lastSuccess, successCount, failCount, status, latencyMs)
    }

    constructor (ghost h: Hash, c: Config, url: bytes, seen: int)
      ensures key == h && View() == NewEntry(c, url, seen)
    {
      key := h;
      raw, host, port, protocol, sourceUrl, firstSeen := c.raw, c.host, c.port, c.protocol, url, seen;
      lastTested, lastSuccess, successCount, failCount, status, latencyMs := NEVER, NEVER, 0, 0, Unknown, 0;
    }

    method Apply(r: TestResult, now: int, ceiling: int)
      modifies this
      ensures View() == ApplyOne(old(View()), r, now, ceiling)
      ensures Recorded(old(View()), View(), r.success, r.latencyMs, now, ceiling)
    {
      lastTested := now;
      var success := r.success;
      if success && ceiling > 0 && r.latencyMs > ceiling {
        success := false;
      }
      if success {
        status := Working;
        lastSuccess := now;
        successCount := successCount + 1;
        latencyMs := r.latencyMs;
      } else {
        failCount := failCount + 1;
        if status == Working {
          status := Failed;
        } else if status != Unreachable {
          status := Failed;
        }
        if r.latencyMs > 0 {
          latencyMs := r.latencyMs;
        }
      }
    }

    method Lose(now: int)
      modifies this
      ensures View() == MarkUnreachable(old(View()), now)
    {
      if status != Unreachable {
        status := Unreachable;
        lastTested := now;
      }
    }
  }

  class EntryStore {
    var configs: map<Hash, ConfigEntry>
    ghost var view: Table  // every entry as a value
    ghost var entries: set<ConfigEntry>

    /** Each hash has an entry of its own, which knows it. */
    ghost predicate Valid()
      reads this, entries
    {
      && view.Keys == configs.Keys
      && (forall h | h in configs :: configs[h] in entries && configs[h].key == h && configs[h].View() == view[h])
    }

    constructor ()
      ensures Valid() && view == map[] && entries == {}
    {
      configs, view, entries := map[], map[], {};
    }

    /** The hashes come in map order, that is in any order. */
    method SelectCandidates(interval: int, keepSuccessful: bool, now: int) returns (candidates: seq<Hash>)
      requires Valid()
      ensures Distinct(candidates)
      ensures forall h :: h in candidates <==> h in Candidates(view, interval, keepSuccessful, now)
    {
      candidates := [];
      var rest := configs.Keys;
      while rest != {}
        invariant rest <= configs.Keys && Distinct(candidates)
        invariant forall h :: h in candidates <==>
          h in configs.Keys - rest && IsCandidate(view[h], interval, keepSuccessful, now)
        decreases |rest|
      {
        var h :| h in rest;
        var entry := configs[h];
        rest := rest - {h};
        match entry.status {
          case Working =>
            if keepSuccessful && now - entry.lastTested >= interval {
              candidates := candidates + [h];
            }
          case _ => candidates := candidates + [h];
        }
      }
    }

    method ApplyResults(results: seq<TestResult>, now: int, ceiling: int)
      requires Valid()
      modifies this`view, entries
      ensures Valid() && view == ApplyAll(old(view), results, now, ceiling)
    {
      for i := 0 to |results|
        invariant Valid() && view == ApplyAll(old(view), results[..i], now, ceiling)
      {
        assert results[..i + 1][..i] == results[..i];
        ApplyResult(results[i], now, ceiling);
      }
      assert results[..|results|] == results;
    }

    method ApplyResult(r: TestResult, now: int, ceiling: int)
      requires Valid()
      modifies this`view, entries
      ensures Valid() && view == ApplyTo(old(view), r, now, ceiling)
    {
      if r.hash in configs {
        configs[r.hash].Apply(r, now, ceiling);
        view := view[r.hash := ApplyOne(view[r.hash], r, now, ceiling)];
      }
    }

    method Lose(h: Hash, now: int)
      requires Valid()
      modifies this`view, entries
      ensures Valid()
      ensures view == if h in old(view) then old(view)[h := MarkUnreachable(old(view)[h], now)] else old(view)
    {
      if h in configs {
        configs[h].Lose(now);
        view := view[h := MarkUnreachable(view[h], now)];
      }
    }

    method MergeIntoState(fetched: map<Hash, Config>, url: bytes, seen: Clock)
      requires Valid()
      modifies this
      ensures Valid() && view == Merge(old(view), fetched, url, seen)
      ensures fresh(entries - old(entries))
    {
      var rest := fetched.Keys;
      ghost var order: seq<Hash> := [];
      while rest != {}
        invariant Valid()
        invariant forall h :: h in fetched <==> h in order || h in rest
        invariant view == MergeEach(old(view), fetched, order, url, seen)
        invariant fresh(entries - old(entries))
        decreases |rest|
      {
        var h :| h in rest;
        assert (order + [h])[..|order|] == order;
        rest, order := rest - {h}, order + [h];
        MergeOne(h, fetched[h], url, SeenAt(seen, h));
      }
      MergeEachIsMerge(old(view), fetched, order, url, seen);
    }

    method MergeOne(h: Hash, c: Config, url: bytes, seen: int)
      requires Valid()
      modifies this
      ensures Valid() && view == WithNew(old(view), h, c, url, seen)
      ensures fresh(entries - old(entries))
    {
      if h !in configs {
        Add(h, c, url, seen);
      }
    }

    method Add(h: Hash, c: Config, url: bytes, seen: int)
      requires Valid() && h !in configs
      modifies this
      ensures Valid() && view == old(view)[h := NewEntry(c, url, seen)]
      ensures fresh(entries - old(entries))
    {
      var entry := new ConfigEntry(h, c, url, seen);
      configs, entries := configs[h := entry], entries + {entry};
      view := view[h := NewEntry(c, url, seen)];
    }
  }
}
