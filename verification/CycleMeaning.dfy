/** What one cycle does to one entry, told from the entry, the settings and the network alone:
    runCycle of internal/daemon/loop.go, with ApplyResults of internal/daemon/state.go. */
module CycleMeaning {
  import opened Bytes
  import opened Cycle
  import opened Limit
  import opened State

  /** An entry whose test brought a result works exactly when the test was passed within the ceiling;
      the end-to-end latency counts when it was measured, the total one otherwise. */
  lemma TestedEntry(st: Table, known: Configs, s: Settings, w: World, lost: set<Hash>, h: Hash)
    requires h in st && h in ToTest(st, known, s, w) && h !in lost
    ensures h in CycleTable(st, known, s, w, lost)
    ensures var before, after, report := st[h], CycleTable(st, known, s, w, lost)[h], w.report(h);
      var latency := if report.responseMs > 0 then report.responseMs else report.totalMs;
      && after.lastTested == w.now
      && (after.status.Working? <==> report.success && (s.ceiling <= 0 || latency <= s.ceiling))
      && (after.status.Working? ==>
        && after.latencyMs == latency && after.lastSuccess == w.now
        && after.successCount == before.successCount + 1 && after.failCount == before.failCount)
      && (!after.status.Working? ==>
        && after.status == (if before.status.Unreachable? then Unreachable else Failed)
        && after.latencyMs == (if latency > 0 then latency else before.latencyMs)
        && after.lastSuccess == before.lastSuccess
        && after.successCount == before.successCount && after.failCount == before.failCount + 1)
  {
    var r := ResultOf(w)(h);
    ApplyOneRecords(st[h], r, w.now, s.ceiling);
  }

  /** Whether an entry may be tested now: a working one only under keepSuccessful and once the interval
      is over, any other at any time. */
  predicate MayTest(e: Entry, s: Settings, now: int) {
    e.status.Working? ==> s.keepSuccessful && now - e.lastTested >= s.interval
  }

  /** There is an entry to test whose configuration is known; without one the cycle does nothing. */
  ghost predicate SomeTarget(st: Table, known: Configs, s: Settings, now: int) {
    exists g :: g in st && g in known && MayTest(st[g], s, now)
  }

  lemma TargetsAre(st: Table, known: Configs, s: Settings, now: int)
    ensures forall g :: g in Due(st, s, now) * known.Keys <==> g in st && g in known && MayTest(st[g], s, now)
    ensures Due(st, s, now) * known.Keys != {} <==> SomeTarget(st, known, s, now)
  {
    if g :| g in st && g in known && MayTest(st[g], s, now) {
      assert g in Due(st, s, now) * known.Keys;
    }
  }

  /** An entry without a result stays as it is, unless it may be tested and did not answer in a cycle
      that has something to test: then it is unreachable, and dated now unless it was so before. */
  lemma UntestedEntry(st: Table, known: Configs, s: Settings, w: World, lost: set<Hash>, h: Hash)
    requires h in st && !(h in ToTest(st, known, s, w) && h !in lost)
    ensures h in CycleTable(st, known, s, w, lost)
    ensures var before, after := st[h], CycleTable(st, known, s, w, lost)[h];
      var silent :=
        MayTest(before, s, w.now) && !(h in known && w.ping(h).success) && SomeTarget(st, known, s, w.now);
      && (after.status.Working? <==> before.status.Working? && !silent)
      && after == if !silent || before.status.Unreachable? then before
                  else before.(status := Unreachable, lastTested := w.now)
  {
    TargetsAre(st, known, s, w.now);
  }

  /** The entries to test that answered and are faster, or as fast and first in the dictionary. */
  ghost function Rivals(st: Table, known: Configs, s: Settings, w: World, h: Hash): set<Hash> {
    set g | g in st && g in known && MayTest(st[g], s, w.now) && w.ping(g).success
      && (w.ping(g).latency < w.ping(h).latency || (w.ping(g).latency == w.ping(h).latency && Before(g, h)))
  }

  /** A hash goes through the real test exactly when it may be tested, its configuration is known, it
      answers its ping, and fewer rivals than maxXrayTests, where that is a limit, come before it. */
  lemma WhoIsTested(st: Table, known: Configs, s: Settings, w: World, h: Hash)
    ensures h in ToTest(st, known, s, w) <==>
      && h in st && h in known && MayTest(st[h], s, w.now) && w.ping(h).success
      && (s.maxXrayTests <= 0 || |Rivals(st, known, s, w, h)| < s.maxXrayTests)
  {
    var targets := Due(st, s, w.now) * known.Keys;
    TargetsAre(st, known, s, w.now);
    if h in Reached(targets, w) {
      RivalsAhead(st, known, s, w, targets, h);
    }
  }

  lemma RivalsAhead(st: Table, known: Configs, s: Settings, w: World, targets: set<Hash>, h: Hash)
    requires forall g :: g in targets <==> g in st && g in known && MayTest(st[g], s, w.now)
    requires h in Reached(targets, w)
    ensures AheadOf(Pinged(targets, w), Reached(targets, w), h) == Rivals(st, known, s, w, h)
  {
    forall g | g in Reached(targets, w)
      ensures Ahead(Pinged(targets, w), g, h) <==> g in Rivals(st, known, s, w, h)
    {
      AheadSpelled(Pinged(targets, w), g, h);
    }
  }

  // ---- what the fetches bring --------------------------------------------------------

  /** Fetch k is the first that brings the hash. */
  ghost predicate BroughtBy(fetches: seq<Fetch>, k: nat, h: Hash) {
    k < |fetches| && h in fetches[k].configs && forall i | 0 <= i < k :: h !in fetches[i].configs
  }

  /** A fetched hash is known afterwards, with the first configuration that was fetched for it unless
      it had one before; and it has an entry, made of that configuration and its source unless it was
      filed before. */
  lemma {:induction false} FirstFetchCounts(known: Configs, st: Table, fetches: seq<Fetch>, k: nat, h: Hash)
    requires BroughtBy(fetches, k, h)
    ensures h in LearnAll(known, fetches)
    ensures LearnAll(known, fetches)[h] == if h in known then known[h] else fetches[k].configs[h]
    ensures h in MergeAll(st, fetches)
    ensures var c, url, seen := fetches[k].configs[h], fetches[k].url, fetches[k].seen;
      MergeAll(st, fetches)[h] == if h in st then st[h]
        else Entry(c.raw, c.host, c.port, c.protocol, url, if h in seen then seen[h] else 0, 0, 0, 0, 0, Unknown, 0)
  {
    var front := fetches[..|fetches| - 1];
    if k < |front| {
      FirstFetchCounts(known, st, front, k, h);
    } else {
      NothingBrought(known, st, front, h);
    }
  }

  /** Fetches that do not bring a hash neither make it known nor give it an entry, nor change either. */
  lemma {:induction false} NothingBrought(known: Configs, st: Table, fetches: seq<Fetch>, h: Hash)
    requires forall i | 0 <= i < |fetches| :: h !in fetches[i].configs
    ensures h in LearnAll(known, fetches) <==> h in known
    ensures h in known ==> LearnAll(known, fetches)[h] == known[h]
    ensures h in MergeAll(st, fetches) <==> h in st
    ensures h in st ==> MergeAll(st, fetches)[h] == st[h]
  {
    if fetches != [] {
      NothingBrought(known, st, fetches[..|fetches| - 1], h);
    }
  }
}
