/** What the daemon keeps over all its cycles, starting from any state. */
module History {
  import opened Bytes
  import opened Cycle
  import opened Limit
  import opened Publish
  import opened Sorting
  import opened State
  import Subscription

  /** What a daemon carries from one cycle to the next. */
  datatype Snapshot = Snapshot(table: Table, known: Configs)

  /** The inputs of one cycle, and the tests of it that brought no result. */
  datatype Input = Input(fetches: seq<Fetch>, s: Settings, w: World, lost: set<Hash>)

  /** RunCycle on values. */
  function NextSnapshot(d: Snapshot, i: Input): Snapshot {
    var known := LearnAll(d.known, i.fetches);
    Snapshot(CycleTable(MergeAll(d.table, i.fetches), known, i.s, i.w, i.lost), known)
  }

  function After(d: Snapshot, inputs: seq<Input>): Snapshot {
    if inputs == [] then d else NextSnapshot(After(d, inputs[..|inputs| - 1]), inputs[|inputs| - 1])
  }

  // ---- how one entry may change ------------------------------------------------------

  predicate SameIdentity(a: Entry, b: Entry) {
    && a.raw == b.raw && a.host == b.host && a.port == b.port && a.protocol == b.protocol
    && a.sourceUrl == b.sourceUrl && a.firstSeen == b.firstSeen
  }

  /** From a to b in any number of cycles: the identity stays, counts do not fall, nothing becomes
      unknown, and only a success on the way can make something work or fail that was unreachable. */
  predicate Evolves(a: Entry, b: Entry) {
    && SameIdentity(a, b) && a.successCount <= b.successCount && a.failCount <= b.failCount
    && (b.status.Unknown? ==> a == b)
    && (!a.status.Working? && b.status.Working? ==> a.successCount < b.successCount)
    && (a.status.Unreachable? && b.status.Failed? ==> a.successCount < b.successCount)
  }

  /** A working entry has succeeded, last at its last test, and within the ceiling. */
  predicate Sound(e: Entry, ceiling: int) {
    && e.successCount >= 0 && e.failCount >= 0
    && (e.status.Working? ==>
      e.successCount >= 1 && e.lastSuccess == e.lastTested && (ceiling > 0 ==> e.latencyMs <= ceiling))
  }

  lemma EvolvesOn(a: Entry, b: Entry, c: Entry)
    requires Evolves(a, b) && Evolves(b, c)
    ensures Evolves(a, c)
  {
  }

  /** One cycle on one entry; in particular unreachable does not become failed within a cycle. */
  lemma EntryStep(
      e: Entry, h: Hash, due: set<Hash>, targets: set<Hash>, s: Settings, w: World, lost: set<Hash>)
    ensures var after := EntryAfter(e, h, due, targets, s, w, lost);
      && Evolves(e, after)
      && !(e.status.Unreachable? && after.status.Failed?)
      && (Sound(e, s.ceiling) ==> Sound(after, s.ceiling))
      && Tests(after) == Tests(e) + (if h in Tested(targets, s, w) - lost then 1 else 0)
  {
  }

  // ---- one cycle ---------------------------------------------------------------------

  lemma {:induction false} MergeAllAt(st: Table, fetches: seq<Fetch>, h: Hash)
    ensures h in st ==> h in MergeAll(st, fetches) && MergeAll(st, fetches)[h] == st[h]
    ensures h in MergeAll(st, fetches) && h !in st ==>
      exists f, c :: f in fetches && h in f.configs && c == f.configs[h]
        && MergeAll(st, fetches)[h] == NewEntry(c, f.url, SeenAt(f.seen, h))
  {
    if fetches != [] {
      MergeAllAt(st, fetches[..|fetches| - 1], h);
      assert fetches == fetches[..|fetches| - 1] + [fetches[|fetches| - 1]];
    }
  }

  lemma {:induction false} LearnAllKeeps(known: Configs, fetches: seq<Fetch>, h: Hash)
    ensures h in known ==> h in LearnAll(known, fetches) && LearnAll(known, fetches)[h] == known[h]
  {
    if fetches != [] {
      LearnAllKeeps(known, fetches[..|fetches| - 1], h);
    }
  }

  /** Candidates that were never parsed by this process are demoted without a ping of their own,
      exactly when some other candidate was parsed. */
  lemma OrphansDemoted(st: Table, known: Configs, s: Settings, w: World, lost: set<Hash>, h: Hash)
    requires h in Due(st, s, w.now) && h !in known
    ensures CycleTable(st, known, s, w, lost)[h] ==
      if Due(st, s, w.now) * known.Keys == {} then st[h] else MarkUnreachable(st[h], w.now)
  {
  }

  /** Two candidates, one of them parsed: the other is unreachable afterwards whatever a ping of it
      would have said. With neither parsed nothing changes. */
  lemma OrphanIsDemoted(e: Entry, cfg: Config, s: Settings, w: World, lost: set<Hash>)
    requires e.status.Unknown?
    ensures var st: Table := map[[1] := e, [2] := e];
      && CycleTable(st, map[[1] := cfg], s, w, lost)[[2]] == e.(status := Unreachable, lastTested := w.now)
      && CycleTable(st, map[], s, w, lost) == st
  {
    var st: Table := map[[1] := e, [2] := e];
    var one, two: Hash := [1], [2];
    assert one[0] != two[0];
    var known: Configs := map[one := cfg];
    assert one in Due(st, s, w.now) * known.Keys;
    OrphansDemoted(st, known, s, w, lost, two);
    NothingDue(st, map[], s, w, lost);
  }

  lemma CycleAt(st: Table, known: Configs, s: Settings, w: World, lost: set<Hash>, h: Hash)
    requires h in st
    ensures var after := CycleTable(st, known, s, w, lost);
      && h in after && Evolves(st[h], after[h])
      && !(st[h].status.Unreachable? && after[h].status.Failed?)
      && (Sound(st[h], s.ceiling) ==> Sound(after[h], s.ceiling))
  {
    var due := Due(st, s, w.now);
    EntryStep(st[h], h, due, due * known.Keys, s, w, lost);
  }

  /** A working entry is left alone until it is due again: never without keepSuccessful, and not
      before the retest interval has passed with it. */
  lemma WorkingLeftAlone(st: Table, known: Configs, s: Settings, w: World, lost: set<Hash>, h: Hash)
    requires h in st && st[h].status.Working?
    requires !s.keepSuccessful || w.now - st[h].lastTested < s.interval
    ensures CycleTable(st, known, s, w, lost)[h] == st[h]
  {
  }

  // ---- whole runs --------------------------------------------------------------------

  /** No entry is ever removed, and every one evolves. */
  lemma {:induction false} RunEvolves(d: Snapshot, inputs: seq<Input>, h: Hash)
    requires h in d.table
    ensures h in After(d, inputs).table && Evolves(d.table[h], After(d, inputs).table[h])
  {
    if inputs != [] {
      var before, i := After(d, inputs[..|inputs| - 1]), inputs[|inputs| - 1];
      RunEvolves(d, inputs[..|inputs| - 1], h);
      MergeAllAt(before.table, i.fetches, h);
      CycleAt(MergeAll(before.table, i.fetches), LearnAll(before.known, i.fetches), i.s, i.w, i.lost, h);
      EvolvesOn(d.table[h], before.table[h], NextSnapshot(before, i).table[h]);
    }
  }

  ghost predicate AllSound(st: Table, ceiling: int) { forall h | h in st :: Sound(st[h], ceiling) }

  /** Under a fixed ceiling soundness is an invariant. */
  lemma {:induction false} RunSound(d: Snapshot, inputs: seq<Input>, ceiling: int)
    requires AllSound(d.table, ceiling) && forall i | i in inputs :: i.s.ceiling == ceiling
    ensures AllSound(After(d, inputs).table, ceiling)
  {
    if inputs != [] {
      var before, i := After(d, inputs[..|inputs| - 1]), inputs[|inputs| - 1];
      RunSound(d, inputs[..|inputs| - 1], ceiling);
      assert i in inputs;
      SoundStep(before, i);
    }
  }

  lemma SoundStep(d: Snapshot, i: Input)
    requires AllSound(d.table, i.s.ceiling)
    ensures AllSound(NextSnapshot(d, i).table, i.s.ceiling)
  {
    var merged := MergeAll(d.table, i.fetches);
    forall h | h in NextSnapshot(d, i).table ensures Sound(NextSnapshot(d, i).table[h], i.s.ceiling) {
      MergeAllAt(d.table, i.fetches, h);
      CycleAt(merged, LearnAll(d.known, i.fetches), i.s, i.w, i.lost, h);
    }
  }

  /** Without keepSuccessful nothing that works ever changes again, so the working set only grows. */
  lemma {:induction false} RunKeepsWorking(d: Snapshot, inputs: seq<Input>, h: Hash)
    requires h in WorkingKeys(d.table) && forall i | i in inputs :: !i.s.keepSuccessful
    ensures h in WorkingKeys(After(d, inputs).table) && After(d, inputs).table[h] == d.table[h]
  {
    if inputs != [] {
      var before, i := After(d, inputs[..|inputs| - 1]), inputs[|inputs| - 1];
      RunKeepsWorking(d, inputs[..|inputs| - 1], h);
      assert i in inputs;
      MergeAllAt(before.table, i.fetches, h);
      WorkingLeftAlone(MergeAll(before.table, i.fetches), LearnAll(before.known, i.fetches), i.s, i.w, i.lost, h);
    }
  }

  /** A working entry stays as it is while no cycle of the run finds its interval over. */
  lemma {:induction false} RunWaitsInterval(d: Snapshot, inputs: seq<Input>, h: Hash)
    requires h in WorkingKeys(d.table)
    requires forall i | i in inputs :: i.w.now - d.table[h].lastTested < i.s.interval
    ensures h in WorkingKeys(After(d, inputs).table) && After(d, inputs).table[h] == d.table[h]
  {
    if inputs != [] {
      var before, i := After(d, inputs[..|inputs| - 1]), inputs[|inputs| - 1];
      RunWaitsInterval(d, inputs[..|inputs| - 1], h);
      assert i in inputs;
      MergeAllAt(before.table, i.fetches, h);
      WorkingLeftAlone(MergeAll(before.table, i.fetches), LearnAll(before.known, i.fetches), i.s, i.w, i.lost, h);
    }
  }

  // ---- conservation of tests ---------------------------------------------------------

  function TestsAt(st: Table, h: Hash): int { if h in st then Tests(st[h]) else 0 }

  lemma OneMore(tested: set<Hash>, front: seq<Hash>, last: Hash)
    requires last !in front
    ensures |tested * Elements(front + [last])| == |tested * Elements(front)| + (if last in tested then 1 else 0)
  {
    if last in tested {
      assert tested * Elements(front + [last]) == tested * Elements(front) + {last};
    } else {
      assert tested * Elements(front + [last]) == tested * Elements(front);
    }
  }

  /** The totals of two states that differ by one test on each hash of the set. */
  lemma {:induction false} TotalsDiffer(a: Table, b: Table, tested: set<Hash>, hashes: seq<Hash>)
    requires Distinct(hashes)
    requires forall h | h in hashes :: TestsAt(b, h) == TestsAt(a, h) + (if h in tested then 1 else 0)
    ensures TotalTests(b, hashes) == TotalTests(a, hashes) + |tested * Elements(hashes)|
  {
    if hashes == [] {
      assert tested * Elements(hashes) == {};
    } else {
      var front, last := hashes[..|hashes| - 1], hashes[|hashes| - 1];
      assert hashes == front + [last] && last !in front;
      TotalsDiffer(a, b, tested, front);
      OneMore(tested, front, last);
    }
  }

  /** The hashes put through the real test in one cycle, with a result. */
  function TestedIn(d: Snapshot, i: Input): set<Hash> {
    ToTest(MergeAll(d.table, i.fetches), LearnAll(d.known, i.fetches), i.s, i.w) - i.lost
  }

  lemma TestsStep(d: Snapshot, i: Input, h: Hash)
    ensures TestsAt(NextSnapshot(d, i).table, h) == TestsAt(d.table, h) + (if h in TestedIn(d, i) then 1 else 0)
    ensures h in TestedIn(d, i) ==> h in NextSnapshot(d, i).table
    ensures h in d.table ==> h in NextSnapshot(d, i).table
  {
    var merged, known := MergeAll(d.table, i.fetches), LearnAll(d.known, i.fetches);
    MergeAllAt(d.table, i.fetches, h);
    var due := Due(merged, i.s, i.w.now);
    if h in merged {
      EntryStep(merged[h], h, due, due * known.Keys, i.s, i.w, i.lost);
    }
  }

  lemma CycleTotals(d: Snapshot, i: Input, hashes: seq<Hash>)
    requires Distinct(hashes) && forall h | h in NextSnapshot(d, i).table :: h in hashes
    ensures TotalTests(NextSnapshot(d, i).table, hashes) == TotalTests(d.table, hashes) + |TestedIn(d, i)|
  {
    var tested := TestedIn(d, i);
    forall h ensures TestsAt(NextSnapshot(d, i).table, h) == TestsAt(d.table, h) + (if h in tested then 1 else 0)
      ensures h in tested ==> h in hashes
    {
      TestsStep(d, i, h);
    }
    TotalsDiffer(d.table, NextSnapshot(d, i).table, tested, hashes);
    assert tested * Elements(hashes) == tested;
  }

  function TestsDuring(d: Snapshot, inputs: seq<Input>): nat {
    if inputs == [] then 0
    else
      var front := inputs[..|inputs| - 1];
      TestsDuring(d, front) + |TestedIn(After(d, front), inputs[|inputs| - 1])|
  }

  /** Over any run, and any enumeration of the hashes seen by its end, the success and fail counts
      together grow by exactly the number of tests that were made. */
  lemma {:induction false} RunTotals(d: Snapshot, inputs: seq<Input>, hashes: seq<Hash>)
    requires Distinct(hashes) && forall h | h in After(d, inputs).table :: h in hashes
    ensures TotalTests(After(d, inputs).table, hashes) == TotalTests(d.table, hashes) + TestsDuring(d, inputs)
  {
    if inputs != [] {
      var before, i := After(d, inputs[..|inputs| - 1]), inputs[|inputs| - 1];
      forall h | h in before.table ensures h in hashes {
        TestsStep(before, i, h);
      }
      RunTotals(d, inputs[..|inputs| - 1], hashes);
      CycleTotals(before, i, hashes);
    }
  }

  /** The cap in numbers: of the reachable targets all are tested without a limit, else as many
      as it admits. */
  lemma TestedCount(targets: set<Hash>, s: Settings, w: World)
    ensures |Tested(targets, s, w)| ==
      if Capped(|Reached(targets, w)|, s.maxXrayTests) then s.maxXrayTests else |Reached(targets, w)|
  {
    var reached, tcp := Reached(targets, w), Pinged(targets, w);
    var walk := Walk(reached);
    WalkEnumerates(reached);
    var named := Map(h => NamedConfig(h, Config([], [], 0, [])), walk);
    assert Hashes(named) == walk;
    assert Elements(walk) == reached;
    DistinctSize(walk);
    KeptAreTheBest(tcp, named, s.maxXrayTests);
    KeptDistinct(tcp, named, s.maxXrayTests);
    var kept := Kept(tcp, named, s.maxXrayTests);
    assert Distinct(Hashes(kept));
    DistinctSize(Hashes(kept));
  }

  // ---- what is served after a run ----------------------------------------------------

  /** Every entry is filed under the hash of its raw link, which the parser left behind. */
  ghost predicate Proper<L(!new)>(links: Subscription.Links<L>, hash: bytes -> bytes, st: Table) {
    forall h | h in st :: h == hash(st[h].raw) && Readable(links, st[h].raw)
  }

  ghost predicate ProperFetches<L(!new)>(links: Subscription.Links<L>, hash: bytes -> bytes, fetches: seq<Fetch>) {
    forall f, h | f in fetches && h in f.configs :: h == hash(f.configs[h].raw) && Readable(links, f.configs[h].raw)
  }

  ghost predicate ProperInputs<L(!new)>(links: Subscription.Links<L>, hash: bytes -> bytes, inputs: seq<Input>) {
    forall i | i in inputs :: ProperFetches(links, hash, i.fetches)
  }

  lemma MergedProper<L(!new)>(links: Subscription.Links<L>, hash: bytes -> bytes, st: Table, fetches: seq<Fetch>)
    requires Proper(links, hash, st) && ProperFetches(links, hash, fetches)
    ensures Proper(links, hash, MergeAll(st, fetches))
  {
    forall h | h in MergeAll(st, fetches)
      ensures h == hash(MergeAll(st, fetches)[h].raw) && Readable(links, MergeAll(st, fetches)[h].raw)
    {
      MergeAllAt(st, fetches, h);
    }
  }

  lemma CycleProper<L(!new)>(
      links: Subscription.Links<L>, hash: bytes -> bytes,
      st: Table, known: Configs, s: Settings, w: World, lost: set<Hash>)
    requires Proper(links, hash, st)
    ensures Proper(links, hash, CycleTable(st, known, s, w, lost))
  {
    var after := CycleTable(st, known, s, w, lost);
    forall h | h in after ensures h in st && after[h].raw == st[h].raw {
      CycleAt(st, known, s, w, lost, h);
    }
  }

  lemma {:induction false} RunProper<L(!new)>(
      links: Subscription.Links<L>, hash: bytes -> bytes, d: Snapshot, inputs: seq<Input>)
    requires Proper(links, hash, d.table) && ProperInputs(links, hash, inputs)
    ensures Proper(links, hash, After(d, inputs).table)
  {
    if inputs != [] {
      var before, i := After(d, inputs[..|inputs| - 1]), inputs[|inputs| - 1];
      RunProper(links, hash, d, inputs[..|inputs| - 1]);
      assert i in inputs;
      MergedProper(links, hash, before.table, i.fetches);
      CycleProper(links, hash, MergeAll(before.table, i.fetches), LearnAll(before.known, i.fetches), i.s, i.w, i.lost);
    }
  }

  /** Nothing over the ceiling is ever published. */
  lemma PublishedWithinCeiling(st: Table, ceiling: int, line: Line)
    requires AllSound(st, ceiling) && ceiling > 0 && line in PublishedLines(st)
    ensures line.latencyMs <= ceiling
  {
    var h := PublishedFrom(st, line);
  }
}
