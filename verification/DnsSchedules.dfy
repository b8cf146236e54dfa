/** DNSCache of internal/cache/dns.go under every interleaving: Lookup releases its lock only
    between two self-contained sections. */
module DnsSchedules {
  import opened Bytes
  import opened Options
  import opened LruModel
  import opened CacheStore

  /** The two locked sections of DNSCache.Lookup; any goroutine may run either at any time. */
  datatype Section<+V> = ProbeSection(host: bytes, now: int) | SetSection(host: bytes, addrs: V, at: int)

  function Step<V>(s: MapAndList<V>, e: Section<V>, ttl: int, max: nat): MapAndList<V>
    requires Loose(s)
  {
    match e
    case ProbeSection(host, now) => GetStore(s, host, now, ttl - 1)
    case SetSection(host, addrs, at) => CacheStore.Put(s, Item(host, addrs, at), max)
  }

  /** What the same section does to the plain recency list. */
  function Model<V>(items: seq<Item<V>>, e: Section<V>, ttl: int, max: nat): seq<Item<V>> {
    match e
    case ProbeSection(host, now) => LruModel.Probe(items, host, now, ttl).0
    case SetSection(host, addrs, at) => LruModel.Put(items, host, addrs, at, max)
  }

  lemma StepRefines<V>(s: MapAndList<V>, e: Section<V>, ttl: int, max: nat)
    requires Exact(s) && |s.list| <= max && max > 0
    ensures var t := Step(s, e, ttl, max);
      Exact(t) && |t.list| <= max && ItemsOf(t) == Model(ItemsOf(s), e, ttl, max)
  {
    match e {
      case ProbeSection(host, now) => GetItems(s, host, now, ttl - 1);
      case SetSection(host, addrs, at) =>
        PutLoose(s, Item(host, addrs, at), max);
        PutItems(s, Item(host, addrs, at), max);
    }
  }

  /** The store after any sequence of sections, whoever runs them. */
  ghost function After<V>(schedule: seq<Section<V>>, ttl: int, max: nat): (s: MapAndList<V>)
    requires max > 0
    ensures Exact(s) && |s.list| <= max
  {
    if schedule == [] then MapAndList(EMPTY_MAP, [], [])
    else
      var before := After(schedule[..|schedule| - 1], ttl, max);
      StepRefines(before, schedule[|schedule| - 1], ttl, max);
      Step(before, schedule[|schedule| - 1], ttl, max)
  }

  function ModelAfter<V>(schedule: seq<Section<V>>, ttl: int, max: nat): seq<Item<V>> {
    if schedule == [] then []
    else Model(ModelAfter(schedule[..|schedule| - 1], ttl, max), schedule[|schedule| - 1], ttl, max)
  }

  /** In every schedule map and list stay exact and within capacity, and hold what the plain
      recency list holds after the same sections. */
  lemma {:induction false} AlwaysExact<V>(schedule: seq<Section<V>>, ttl: int, max: nat)
    requires max > 0
    ensures var s := After(schedule, ttl, max);
      Exact(s) && |s.list| <= max && ItemsOf(s) == ModelAfter(schedule, ttl, max)
  {
    if schedule != [] {
      var front := schedule[..|schedule| - 1];
      AlwaysExact(front, ttl, max);
      StepRefines(After(front, ttl, max), schedule[|schedule| - 1], ttl, max);
    }
  }

  /** What the first section of Lookup answers; nothing sends the caller to the resolver. */
  function ProbeAnswer<V>(s: MapAndList<V>, host: bytes, now: int, ttl: int): Option<V>
    requires Loose(s)
  {
    if host in s.entries && now - s.cells[s.entries[host]].stamp < ttl
    then Some(s.cells[s.entries[host]].value) else None
  }

  /** After any schedule the next lookup answers what the plain recency list answers. */
  lemma Answers<V>(schedule: seq<Section<V>>, host: bytes, now: int, ttl: int, max: nat)
    requires max > 0
    ensures ProbeAnswer(After(schedule, ttl, max), host, now, ttl)
      == LruModel.Probe(ModelAfter(schedule, ttl, max), host, now, ttl).1
  {
    AlwaysExact(schedule, ttl, max);
    GetItems(After(schedule, ttl, max), host, now, ttl - 1);
  }
}
