/** The published file: writeOutputFile of internal/daemon/loop.go. */
module Publish {
  import opened Bytes
  import opened Sorting
  import opened State
  import Subscription

  function WorkingKeys(st: Table): set<Hash> { set h | h in st && st[h].status.Working? }

  /** The part of an entry that the file depends on. */
  datatype Line = Line(latencyMs: int, raw: bytes)

  function LineOf(e: Entry): Line { Line(e.latencyMs, e.raw) }

  /** Ascending latency, then the text of the link. */
  predicate LineShown(a: Line, b: Line) {
    if a.latencyMs == b.latencyMs then TextLeq(a.raw, b.raw) else a.latencyMs < b.latencyMs
  }

  predicate Shown(a: Entry, b: Entry) { LineShown(LineOf(a), LineOf(b)) }

  function Lines(entries: seq<Entry>): seq<Line> { Map(LineOf, entries) }

  function RawOf(line: Line): bytes { line.raw }

  function Raws(lines: seq<Line>): seq<bytes> { Map(RawOf, lines) }

  function At(st: Table, h: Hash): Entry { if h in st then st[h] else NewEntry(Config([], [], 0, []), [], 0) }

  function EntriesOf(st: Table, keys: seq<Hash>): (r: seq<Entry>)
    ensures |r| == |keys|
  {
    if keys == [] then [] else EntriesOf(st, keys[..|keys| - 1]) + [At(st, keys[|keys| - 1])]
  }

  function EntryAt(st: Table): Hash -> Entry { (h: Hash) => At(st, h) }

  lemma {:induction false} EntriesMapped(st: Table, keys: seq<Hash>)
    ensures EntriesOf(st, keys) == Map(EntryAt(st), keys)
  {
    if keys != [] {
      EntriesMapped(st, keys[..|keys| - 1]);
    }
  }

  ghost predicate Enumerates(keys: seq<Hash>, s: set<Hash>) {
    Distinct(keys) && forall h :: h in keys <==> h in s
  }

  /** Some order in which a map walk could visit the hashes. */
  ghost function Walk(s: set<Hash>): seq<Hash> {
    if s == {} then [] else var h :| h in s; Walk(s - {h}) + [h]
  }

  lemma {:induction false} WalkEnumerates(s: set<Hash>)
    ensures Enumerates(Walk(s), s)
  {
    if s != {} {
      var h :| h in s && Walk(s) == Walk(s - {h}) + [h];
      WalkEnumerates(s - {h});
      DistinctAppend(Walk(s - {h}), h);
    }
  }

  /** The lines of the file in published order. */
  ghost function PublishedLines(st: Table): seq<Line> {
    SortBy(LineShown, Lines(EntriesOf(st, Walk(WorkingKeys(st)))))
  }

  ghost function PublishedText(st: Table): bytes { JoinLines(Raws(PublishedLines(st))) }

  // ---- the order ---------------------------------------------------------------------

  lemma LineShownOrders()
    ensures TotalPreorder(LineShown)
    ensures forall m: multiset<Line> :: Separates(LineShown, m)
  {
    forall a, b ensures LineShown(a, b) || LineShown(b, a)
    {
      TextLeqTotal(a.raw, b.raw);
    }
    forall a, b, c | LineShown(a, b) && LineShown(b, c) ensures LineShown(a, c)
    {
      if a.latencyMs == b.latencyMs == c.latencyMs {
        TextLeqTransitive(a.raw, b.raw, c.raw);
      }
    }
    forall m: multiset<Line> ensures Separates(LineShown, m)
    {
      forall a, b | a in m && b in m && LineShown(a, b) && LineShown(b, a) ensures a == b {
        TextLeqTotal(a.raw, b.raw);
      }
    }
  }

  // ---- the file ----------------------------------------------------------------------

  /** Whatever order the map walk takes, sorting gives the same lines. */
  lemma AnyWalkPublishes(st: Table, keys: seq<Hash>)
    requires Enumerates(keys, WorkingKeys(st))
    ensures Lines(SortBy(Shown, EntriesOf(st, keys))) == PublishedLines(st)
  {
    var walk := Walk(WorkingKeys(st));
    WalkEnumerates(WorkingKeys(st));
    SameSetSameMultiset(keys, walk);
    EntriesMapped(st, keys);
    EntriesMapped(st, walk);
    MapPermuted(EntryAt(st), keys, walk);
    MapPermuted(LineOf, EntriesOf(st, keys), EntriesOf(st, walk));
    SortMapped(Shown, LineShown, LineOf, EntriesOf(st, keys));
    LineShownOrders();
    SortByCanonical(LineShown, Lines(EntriesOf(st, keys)), Lines(EntriesOf(st, walk)));
  }

  /** The file shows every working entry once, and nothing else, in ascending order. */
  lemma PublishedLinesShape(st: Table, keys: seq<Hash>)
    requires Enumerates(keys, WorkingKeys(st))
    ensures multiset(PublishedLines(st)) == multiset(Lines(EntriesOf(st, keys)))
    ensures Sorted(LineShown, PublishedLines(st))
  {
    AnyWalkPublishes(st, keys);
    SortMapped(Shown, LineShown, LineOf, EntriesOf(st, keys));
    LineShownOrders();
    SortByCorrect(LineShown, Lines(EntriesOf(st, keys)));
  }

  /** Of any two lines the earlier one has the lower latency, or the same and a raw link that is no
      later in the dictionary. */
  lemma FastestFirst(st: Table, i: nat, j: nat)
    requires i < j < |PublishedLines(st)|
    ensures var a, b := PublishedLines(st)[i], PublishedLines(st)[j];
      a.latencyMs < b.latencyMs || (a.latencyMs == b.latencyMs && (a.raw == b.raw || Before(a.raw, b.raw)))
  {
    var lines, walk := PublishedLines(st), Walk(WorkingKeys(st));
    WalkEnumerates(WorkingKeys(st));
    PublishedLinesShape(st, walk);
    assert LineShown(lines[i], lines[j]);
    TextLeqIsBefore(lines[i].raw, lines[j].raw);
  }

  /** The hashes in the order of their lines. */
  ghost function ByLine(st: Table): (Hash, Hash) -> bool {
    (a: Hash, b: Hash) => LineShown(LineAt(st)(a), LineAt(st)(b))
  }

  function LineAt(st: Table): Hash -> Line { (h: Hash) => LineOf(At(st, h)) }

  lemma LinesAt(st: Table, keys: seq<Hash>)
    ensures Lines(EntriesOf(st, keys)) == Map(LineAt(st), keys)
  {
    EntriesMapped(st, keys);
  }

  lemma KeysInOrder(st: Table) returns (keys: seq<Hash>)
    ensures Enumerates(keys, WorkingKeys(st)) && PublishedLines(st) == Map(LineAt(st), keys)
  {
    var walk := Walk(WorkingKeys(st));
    WalkEnumerates(WorkingKeys(st));
    keys := SortBy(ByLine(st), walk);
    LinesAt(st, walk);
    SortMapped(ByLine(st), LineShown, LineAt(st), walk);
    ByLineOrders(st);
    SortByCorrect(ByLine(st), walk);
    PermutedDistinct(walk, keys);
    SameMembers(walk, keys);
  }

  lemma ByLineOrders(st: Table)
    ensures TotalPreorder(ByLine(st))
  {
    LineShownOrders();
    var leq := ByLine(st);
    forall a, b ensures leq(a, b) || leq(b, a) {
      var x, y := LineAt(st)(a), LineAt(st)(b);
      assert LineShown(x, y) || LineShown(y, x);
    }
    forall a, b, c | leq(a, b) && leq(b, c) ensures leq(a, c) {
      var x, y, z := LineAt(st)(a), LineAt(st)(b), LineAt(st)(c);
      assert LineShown(x, y) && LineShown(y, z);
    }
  }

  /** The file in full: the working hashes can be listed so that it consists of their raw links, a
      newline after each, with ascending latencies and, on equal ones, in dictionary order. */
  lemma FileInFull(st: Table) returns (keys: seq<Hash>)
    ensures Distinct(keys) && forall i | 0 <= i < |keys| :: keys[i] in st && st[keys[i]].status.Working?
    ensures forall h | h in st && st[h].status.Working? :: h in keys
    ensures PublishedText(st) == JoinLines(seq(|keys|, i requires 0 <= i < |keys| => st[keys[i]].raw))
    ensures forall i, j | 0 <= i < j < |keys| :: var a, b := st[keys[i]], st[keys[j]];
      a.latencyMs < b.latencyMs || (a.latencyMs == b.latencyMs && (a.raw == b.raw || Before(a.raw, b.raw)))
  {
    keys := KeysInOrder(st);
    assert forall i | 0 <= i < |keys| :: keys[i] in WorkingKeys(st);
    forall i, j | 0 <= i < j < |keys| ensures var a, b := st[keys[i]], st[keys[j]];
      a.latencyMs < b.latencyMs || (a.latencyMs == b.latencyMs && (a.raw == b.raw || Before(a.raw, b.raw)))
    {
      FastestFirst(st, i, j);
    }
    RawsOfKeys(st, keys);
  }

  lemma RawsOfKeys(st: Table, keys: seq<Hash>)
    requires PublishedLines(st) == Map(LineAt(st), keys) && forall i | 0 <= i < |keys| :: keys[i] in st
    ensures Raws(PublishedLines(st)) == seq(|keys|, i requires 0 <= i < |keys| => st[keys[i]].raw)
  {
  }

  /** Every line comes from a working entry. */
  lemma PublishedFrom(st: Table, line: Line) returns (h: Hash)
    requires line in PublishedLines(st)
    ensures h in WorkingKeys(st) && line == LineOf(st[h])
  {
    var walk := Walk(WorkingKeys(st));
    WalkEnumerates(WorkingKeys(st));
    PublishedLinesShape(st, walk);
    SameMembers(Lines(EntriesOf(st, walk)), PublishedLines(st));
    h := LineSource(st, walk, Lines(EntriesOf(st, walk)), line);
  }

  lemma LineSource(st: Table, walk: seq<Hash>, lines: seq<Line>, line: Line) returns (h: Hash)
    requires lines == Lines(EntriesOf(st, walk)) && line in lines && forall h | h in walk :: h in st
    ensures h in walk && line == LineOf(st[h])
  {
    EntriesMapped(st, walk);
    var i :| 0 <= i < |lines| && lines[i] == line;
    h := walk[i];
  }

  method OutputText(store: EntryStore) returns (text: bytes)
    requires store.Valid()
    ensures store.Valid() && text == PublishedText(store.view)
  {
    var entries, keys := CollectWorking(store);
    AnyWalkPublishes(store.view, keys);
    text := SortedText(entries);
  }

  method SortedText(entries: seq<Entry>) returns (text: bytes)
    ensures text == JoinLines(Raws(Lines(SortBy(Shown, entries))))
  {
    var slice := new Entry[|entries|](i requires 0 <= i < |entries| => entries[i]);
    assert slice[..] == entries;
    StableSort(slice, Shown);
    text := BuildText(slice, Lines(slice[..]));
  }

  lemma WalkStep(st: Table, keys: seq<Hash>, found: set<Hash>, h: Hash)
    requires Enumerates(keys, found) && h !in found && h in st
    ensures Enumerates(keys + [h], found + {h})
    ensures EntriesOf(st, keys + [h]) == EntriesOf(st, keys) + [st[h]]
  {
    DistinctAppend(keys, h);
    assert (keys + [h])[..|keys|] == keys;
  }

  /** The entries come in map order, that is in any order. */
  method CollectWorking(store: EntryStore) returns (entries: seq<Entry>, ghost keys: seq<Hash>)
    requires store.Valid()
    ensures Enumerates(keys, WorkingKeys(store.view)) && entries == EntriesOf(store.view, keys)
  {
    entries, keys := [], [];
    var rest := store.configs.Keys;
    ghost var found: set<Hash> := {};
    while rest != {}
      invariant rest <= store.configs.Keys && Enumerates(keys, found)
      invariant forall h :: h in found <==> h in WorkingKeys(store.view) && h !in rest
      invariant entries == EntriesOf(store.view, keys)
      decreases |rest|
    {
      var h :| h in rest;
      rest := rest - {h};
      if store.configs[h].status == Working {
        WalkStep(store.view, keys, found, h);
        entries, keys, found := entries + [store.configs[h].View()], keys + [h], found + {h};
      }
    }
    assert found == WorkingKeys(store.view);
  }

  method BuildText(slice: array<Entry>, ghost lines: seq<Line>) returns (text: bytes)
    requires Lines(slice[..]) == lines
    ensures text == JoinLines(Raws(lines))
  {
    text := [];
    for i := 0 to slice.Length
      invariant text == JoinLines(Raws(lines[..i]))
    {
      JoinLinesEnds(Raws(lines[..i + 1]));
      assert Raws(lines[..i + 1])[..i] == Raws(lines[..i]);
      text := text + slice[i].raw;
      text := text + [NEWLINE];
    }
    assert lines[..slice.Length] == lines;
  }

  // ---- feeding the file to another daemon --------------------------------------------

  function WorkingRaws(st: Table): set<bytes> { set h | h in WorkingKeys(st) :: st[h].raw }

  /** The links of the file are those of the working entries. */
  lemma PublishedRaws(st: Table)
    ensures Elements(Raws(PublishedLines(st))) == WorkingRaws(st)
  {
    var walk := Walk(WorkingKeys(st));
    WalkEnumerates(WorkingKeys(st));
    PublishedLinesShape(st, walk);
    MapPermuted(RawOf, PublishedLines(st), Lines(EntriesOf(st, walk)));
    SameMembers(Raws(PublishedLines(st)), Raws(Lines(EntriesOf(st, walk))));
    WalkRaws(st, walk);
  }

  lemma RawsListed(st: Table, walk: seq<Hash>, raws: seq<bytes>)
    requires raws == Raws(Lines(EntriesOf(st, walk)))
    ensures |raws| == |walk| && forall i | 0 <= i < |walk| :: raws[i] == At(st, walk[i]).raw
  {
    EntriesMapped(st, walk);
  }

  lemma WalkRaws(st: Table, walk: seq<Hash>)
    requires Enumerates(walk, WorkingKeys(st))
    ensures Elements(Raws(Lines(EntriesOf(st, walk)))) == WorkingRaws(st)
  {
    var raws := Raws(Lines(EntriesOf(st, walk)));
    RawsListed(st, walk, raws);
    ElementsAre(raws, st, walk);
  }

  lemma ElementsAre(raws: seq<bytes>, st: Table, walk: seq<Hash>)
    requires Enumerates(walk, WorkingKeys(st)) && |raws| == |walk|
    requires forall i | 0 <= i < |walk| :: raws[i] == At(st, walk[i]).raw
    ensures Elements(raws) == WorkingRaws(st)
  {
    forall raw | raw in raws ensures raw in WorkingRaws(st) {
      var i :| 0 <= i < |raws| && raws[i] == raw;
      assert walk[i] in walk;
    }
    forall h | h in WorkingKeys(st) ensures st[h].raw in raws {
      assert h in walk;
      var i :| 0 <= i < |walk| && walk[i] == h;
      assert raws[i] == st[h].raw;
    }
  }

  /** The raw text is one that the parser leaves behind. */
  ghost predicate Readable<L(!new)>(links: Subscription.Links<L>, raw: bytes) {
    var c := Subscription.ParseSingle(links, raw);
    c.Some? && c.value.raw == raw && Subscription.Clean(links, c.value)
  }

  ghost predicate AllReadable<L(!new)>(links: Subscription.Links<L>, raws: seq<bytes>) {
    forall i | 0 <= i < |raws| :: Readable(links, raws[i])
  }

  ghost function Reread<L(!new)>(links: Subscription.Links<L>, raws: seq<bytes>): (r: seq<Subscription.Config<L>>)
    requires AllReadable(links, raws)
    ensures |r| == |raws|
    ensures forall i | 0 <= i < |raws| :: Subscription.Clean(links, r[i]) && r[i].raw == raws[i]
  {
    seq(|raws|, i requires 0 <= i < |raws| => assert Readable(links, raws[i]);
      Subscription.ParseSingle(links, raws[i]).value)
  }

  lemma RereadParses<L(!new)>(links: Subscription.Links<L>, raws: seq<bytes>)
    requires raws != [] && AllReadable(links, raws)
    ensures var configs := Reread(links, raws);
      && Subscription.ParseText(links, JoinLines(raws)) == Subscription.Parsed(configs)
      && Subscription.ParseText(links, Subscription.Served(JoinLines(raws))) == Subscription.Parsed(configs)
      && Subscription.Raws(configs) == raws
  {
    var configs := Reread(links, raws);
    assert Subscription.Raws(configs) == raws;
    Subscription.ServeParseRoundTrip(links, configs);
  }

  /** Reading back what the daemon publishes, as the plain file or as the base64 body, gives the
      working links in published order, filed under exactly the hashes that work. */
  lemma EndpointRoundTrip<L(!new)>(links: Subscription.Links<L>, hash: bytes -> bytes, st: Table)
    requires WorkingKeys(st) != {}
    requires forall h | h in WorkingKeys(st) :: Readable(links, st[h].raw) && h == hash(st[h].raw)
    ensures AllReadable(links, Raws(PublishedLines(st)))
    ensures var configs := Reread(links, Raws(PublishedLines(st)));
      && Subscription.ParseText(links, PublishedText(st)) == Subscription.Parsed(configs)
      && Subscription.ParseText(links, Subscription.Served(PublishedText(st))) == Subscription.Parsed(configs)
      && Subscription.KeysOf(hash, configs) == WorkingKeys(st)
  {
    var raws := Raws(PublishedLines(st));
    PublishedRaws(st);
    RawsReadable(links, st, raws);
    RereadParses(links, raws);
    HashesOf(hash, st, raws);
  }

  lemma RawsReadable<L(!new)>(links: Subscription.Links<L>, st: Table, raws: seq<bytes>)
    requires WorkingKeys(st) != {} && forall h | h in WorkingKeys(st) :: Readable(links, st[h].raw)
    requires Elements(raws) == WorkingRaws(st)
    ensures AllReadable(links, raws) && raws != []
  {
    var all := Elements(raws);
    forall i | 0 <= i < |raws| ensures Readable(links, raws[i]) {
      assert raws[i] in all;
    }
    var h :| h in WorkingKeys(st);
    assert st[h].raw in all;
  }

  lemma HashesOf(hash: bytes -> bytes, st: Table, raws: seq<bytes>)
    requires Elements(raws) == WorkingRaws(st)
    requires forall h | h in WorkingKeys(st) :: h == hash(st[h].raw)
    ensures (set raw | raw in raws :: hash(raw)) == WorkingKeys(st)
  {
    var all := Elements(raws);
    forall h | h in WorkingKeys(st) ensures h in set raw | raw in raws :: hash(raw) {
      assert st[h].raw in all;
    }
    forall raw | raw in raws ensures hash(raw) in WorkingKeys(st) {
      assert raw in all;
    }
  }
}
