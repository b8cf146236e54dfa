/** One subscription on its way into the state: FetchAndParse of internal/daemon/fetcher.go. The
    download, the link parsers, the hash and the reading of host and port off a link are parameters. */
module Fetcher {
  import opened Bytes
  import opened Options
  import opened Cycle
  import opened History
  import opened Publish
  import opened State
  import S = Subscription

  /** A payload that does not parse as a whole counts for nothing, even when some lines were good. */
  function Accepted<L>(outcome: S.Outcome<L>): seq<S.Config<L>> {
    if outcome.Parsed? then outcome.configs else []
  }

  /** A hash that was seen before in the payload keeps its configuration. */
  function FileOne<L>(
      hash: bytes -> bytes, describe: S.Config<L> -> Config, found: Configs, c: S.Config<L>): Configs
  {
    if hash(c.raw) in found then found else found[hash(c.raw) := describe(c)]
  }

  function FileAll<L>(hash: bytes -> bytes, describe: S.Config<L> -> Config, configs: seq<S.Config<L>>): Configs {
    if configs == [] then map[]
    else FileOne(hash, describe, FileAll(hash, describe, configs[..|configs| - 1]), configs[|configs| - 1])
  }

  function Fetched<L>(
      links: S.Links<L>, hash: bytes -> bytes, describe: S.Config<L> -> Config, body: Option<bytes>): Configs
  {
    if body.None? then map[] else FileAll(hash, describe, Accepted(S.ParseText(links, body.value)))
  }

  /** body is what the download gives, None when it fails. */
  method FetchAndParse<L>(
      links: S.Links<L>, hash: bytes -> bytes, describe: S.Config<L> -> Config, body: Option<bytes>)
    returns (result: Configs)
    ensures result == Fetched(links, hash, describe, body)
  {
    result := map[];
    if body.None? {
      return;
    }
    var outcome := S.Parse(links, body.value);
    if !outcome.Parsed? {
      return;
    }
    result := FileEach(hash, describe, outcome.configs);
  }

  method FileEach<L>(hash: bytes -> bytes, describe: S.Config<L> -> Config, configs: seq<S.Config<L>>)
    returns (result: Configs)
    ensures result == FileAll(hash, describe, configs)
  {
    result := map[];
    for i := 0 to |configs|
      invariant result == FileAll(hash, describe, configs[..i])
    {
      assert configs[..i + 1][..i] == configs[..i];
      var h := hash(configs[i].raw);
      if h !in result {
        result := result[h := describe(configs[i])];
      }
    }
    assert configs[..|configs|] == configs;
  }

  /** describe keeps the raw link. */
  ghost predicate KeepsRaw<L(!new)>(describe: S.Config<L> -> Config) { forall c :: describe(c).raw == c.raw }

  lemma {:induction false} FiledKeys<L>(
      hash: bytes -> bytes, describe: S.Config<L> -> Config, configs: seq<S.Config<L>>)
    ensures FileAll(hash, describe, configs).Keys == S.KeysOf(hash, configs)
  {
    if configs != [] {
      var front, last := configs[..|configs| - 1], configs[|configs| - 1];
      FiledKeys(hash, describe, front);
      assert S.Raws(configs) == S.Raws(front) + [last.raw];
    }
  }

  /** What is filed under a hash is the first configuration that has it. */
  lemma {:induction false} FirstIsFiled<L>(
      hash: bytes -> bytes, describe: S.Config<L> -> Config, configs: seq<S.Config<L>>, i: nat)
    requires i < |configs| && forall j | 0 <= j < i :: hash(configs[j].raw) != hash(configs[i].raw)
    ensures hash(configs[i].raw) in FileAll(hash, describe, configs)
    ensures FileAll(hash, describe, configs)[hash(configs[i].raw)] == describe(configs[i])
  {
    var front, h := configs[..|configs| - 1], hash(configs[i].raw);
    if i < |front| {
      FirstIsFiled(hash, describe, front, i);
    } else {
      FiledKeys(hash, describe, front);
      assert h !in FileAll(hash, describe, front);
    }
  }

  /** The first configuration with a hash that some configuration has. */
  lemma FiledFrom<L>(hash: bytes -> bytes, describe: S.Config<L> -> Config, configs: seq<S.Config<L>>, h: Hash)
    returns (i: nat)
    requires h in FileAll(hash, describe, configs)
    ensures i < |configs| && h == hash(configs[i].raw) && FileAll(hash, describe, configs)[h] == describe(configs[i])
    ensures forall j | 0 <= j < i :: hash(configs[j].raw) != h
  {
    FiledKeys(hash, describe, configs);
    i := FirstWith(hash, configs, h);
    FirstIsFiled(hash, describe, configs, i);
  }

  lemma FirstWith<L>(hash: bytes -> bytes, configs: seq<S.Config<L>>, h: Hash) returns (i: nat)
    requires h in S.KeysOf(hash, configs)
    ensures i < |configs| && h == hash(configs[i].raw) && forall j | 0 <= j < i :: hash(configs[j].raw) != h
  {
    var raw :| raw in S.Raws(configs) && hash(raw) == h;
    var k :| 0 <= k < |configs| && S.Raws(configs)[k] == raw;
    i := LeastWith(hash, configs, h, k);
  }

  lemma {:induction false} LeastWith<L>(hash: bytes -> bytes, configs: seq<S.Config<L>>, h: Hash, k: nat)
    returns (i: nat)
    requires k < |configs| && h == hash(configs[k].raw)
    ensures i <= k && h == hash(configs[i].raw) && forall j | 0 <= j < i :: hash(configs[j].raw) != h
  {
    i := k;
    if j: nat :| j < k && hash(configs[j].raw) == h {
      i := LeastWith(hash, configs, h, j);
    }
  }

  lemma AcceptedLines<L>(links: S.Links<L>, input: bytes)
    ensures Accepted(S.ParseText(links, input)) == if S.Oversized(input) then [] else S.GoodLines(links, input)
  {
    S.TooLongIff(links, input);
  }

  lemma KeysEmptyIff<L>(hash: bytes -> bytes, configs: seq<S.Config<L>>)
    ensures S.KeysOf(hash, configs) == {} <==> configs == []
  {
    if configs != [] {
      assert S.Raws(configs)[0] in S.Raws(configs);
      assert hash(configs[0].raw) in S.KeysOf(hash, configs);
    }
  }

  /** All good lines of a payload are filed exactly when no line exceeds the scanner's buffer or
      there are none; the same goes for the good lines read before such a line. */
  lemma FilesAllIff<L>(links: S.Links<L>, hash: bytes -> bytes, describe: S.Config<L> -> Config, input: bytes)
    ensures Fetched(links, hash, describe, Some(input)).Keys == S.KeysOf(hash, S.GoodLines(links, input))
      <==> !S.Oversized(input) || S.GoodLines(links, input) == []
    ensures Fetched(links, hash, describe, Some(input)).Keys == S.KeysOf(hash, S.GoodLinesRead(links, input))
      <==> !S.Oversized(input) || S.GoodLinesRead(links, input) == []
  {
    AcceptedLines(links, input);
    FiledKeys(hash, describe, Accepted(S.ParseText(links, input)));
    S.TooLongIff(links, input);
    KeysEmptyIff(hash, S.GoodLines(links, input));
    KeysEmptyIff(hash, S.GoodLinesRead(links, input));
  }

  lemma CleanIsReadable<L(!new)>(links: S.Links<L>, c: S.Config<L>)
    requires S.Clean(links, c)
    ensures Readable(links, c.raw)
  {
  }

  /** Whatever a subscription sends, what it is filed as can be served and read again. */
  lemma FetchedProper<L(!new)>(
      links: S.Links<L>, hash: bytes -> bytes, describe: S.Config<L> -> Config, body: Option<bytes>, h: Hash)
    requires KeepsRaw(describe) && h in Fetched(links, hash, describe, body)
    ensures var c := Fetched(links, hash, describe, body)[h]; h == hash(c.raw) && Readable(links, c.raw)
  {
    var configs := Accepted(S.ParseText(links, body.value));
    var i := FiledFrom(hash, describe, configs, h);
    S.ParsedIsClean(links, body.value);
    CleanIsReadable(links, configs[i]);
  }

  /** Every subscription was downloaded and parsed by FetchAndParse. */
  ghost predicate FromTheNetwork<L(!new)>(
      links: S.Links<L>, hash: bytes -> bytes, describe: S.Config<L> -> Config, fetches: seq<Fetch>)
  {
    forall f | f in fetches :: exists body: Option<bytes> :: f.configs == Fetched(links, hash, describe, body)
  }

  lemma NetworkIsProper<L(!new)>(
      links: S.Links<L>, hash: bytes -> bytes, describe: S.Config<L> -> Config, fetches: seq<Fetch>)
    requires KeepsRaw(describe) && FromTheNetwork(links, hash, describe, fetches)
    ensures ProperFetches(links, hash, fetches)
  {
    forall f, h | f in fetches && h in f.configs
      ensures h == hash(f.configs[h].raw) && Readable(links, f.configs[h].raw)
    {
      var body: Option<bytes> :| f.configs == Fetched(links, hash, describe, body);
      FetchedProper(links, hash, describe, body, h);
    }
  }

  /** Nothing works: the body served is empty, and nothing is filed. */
  lemma NothingServed<L>(links: S.Links<L>, hash: bytes -> bytes, describe: S.Config<L> -> Config, st: Table)
    requires WorkingKeys(st) == {}
    ensures Fetched(links, hash, describe, Some(S.Served(PublishedText(st)))) == map[]
  {
    WalkEnumerates(WorkingKeys(st));
    assert Walk(WorkingKeys(st)) == [];
    assert PublishedText(st) == [];
    assert S.Served([]) == [];
    assert Trim([]) == [];
  }

  /** Two daemons in a row: whatever the first one was fed and however its cycles went, a daemon that
      fetches its endpoint files exactly the hashes that work there. */
  lemma SubscribersAgree<L(!new)>(
      links: S.Links<L>, hash: bytes -> bytes, describe: S.Config<L> -> Config, inputs: seq<Input>)
    requires KeepsRaw(describe)
    requires forall i | i in inputs :: FromTheNetwork(links, hash, describe, i.fetches)
    ensures var st := After(Snapshot(map[], map[]), inputs).table;
      Fetched(links, hash, describe, Some(S.Served(PublishedText(st)))).Keys == WorkingKeys(st)
  {
    forall i | i in inputs ensures ProperFetches(links, hash, i.fetches) {
      NetworkIsProper(links, hash, describe, i.fetches);
    }
    var d := Snapshot(map[], map[]);
    RunProper(links, hash, d, inputs);
    ServedKeys(links, hash, describe, After(d, inputs).table);
  }

  lemma ServedKeys<L(!new)>(links: S.Links<L>, hash: bytes -> bytes, describe: S.Config<L> -> Config, st: Table)
    requires Proper(links, hash, st)
    ensures Fetched(links, hash, describe, Some(S.Served(PublishedText(st)))).Keys == WorkingKeys(st)
  {
    if WorkingKeys(st) == {} {
      NothingServed(links, hash, describe, st);
    } else {
      EndpointRoundTrip(links, hash, st);
      FiledKeys(hash, describe, Reread(links, Raws(PublishedLines(st))));
    }
  }
}
