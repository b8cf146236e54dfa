/** The cap on how many reachable configurations go on to the expensive test:
    internal/daemon/limit.go. */
module Limit {
  import opened Bytes
  import opened Sorting
  import opened State

  /** A TCPResult; the hash is its key. */
  datatype Ping = Ping(success: bool, latency: int)

  type Pings = map<Hash, Ping>

  datatype NamedConfig = NamedConfig(hash: Hash, cfg: Config)

  /** Go reads the zero value for a key that is not there. */
  function Latency(tcp: Pings, h: Hash): int { if h in tcp then tcp[h].latency else 0 }

  /** The comparator: measured before unmeasured, then the faster handshake, then the lesser hash. */
  predicate Ahead(tcp: Pings, a: Hash, b: Hash) {
    if (a in tcp) != (b in tcp) then a in tcp
    else if Latency(tcp, a) != Latency(tcp, b) then Latency(tcp, a) < Latency(tcp, b)
    else !TextLeq(b, a)
  }

  function Rank(tcp: Pings): (NamedConfig, NamedConfig) -> bool {
    (a: NamedConfig, b: NamedConfig) => !Ahead(tcp, b.hash, a.hash)
  }

  predicate Capped(n: nat, limit: int) { 0 < limit < n }

  /** What limitSurvivors returns. */
  function Kept(tcp: Pings, survivors: seq<NamedConfig>, limit: int): seq<NamedConfig> {
    if Capped(|survivors|, limit) then SortBy(Rank(tcp), survivors)[..limit] else survivors
  }

  ghost predicate DistinctNames(survivors: seq<NamedConfig>) {
    forall i, j | 0 <= i < j < |survivors| :: survivors[i].hash != survivors[j].hash
  }

  function Hashes(s: seq<NamedConfig>): (r: seq<Hash>)
    ensures |r| == |s| && forall i | 0 <= i < |s| :: r[i] == s[i].hash
  {
    seq(|s|, i requires 0 <= i < |s| => s[i].hash)
  }

  // ---- the order ---------------------------------------------------------------------

  lemma AheadOrStands(tcp: Pings, a: Hash, b: Hash)
    ensures !(Ahead(tcp, a, b) && Ahead(tcp, b, a))
    ensures a != b ==> Ahead(tcp, a, b) || Ahead(tcp, b, a)
    ensures !Ahead(tcp, a, a)
  {
    TextLeqTotal(a, b);
    TextLeqTotal(a, a);
  }

  lemma NotAheadTransitive(tcp: Pings, a: Hash, b: Hash, c: Hash)
    requires !Ahead(tcp, b, a) && !Ahead(tcp, c, b)
    ensures !Ahead(tcp, c, a)
  {
    if TextLeq(a, b) && TextLeq(b, c) {
      TextLeqTransitive(a, b, c);
    }
  }

  lemma RankOrders(tcp: Pings)
    ensures TotalPreorder(Rank(tcp))
  {
    var leq := Rank(tcp);
    forall a, b ensures leq(a, b) || leq(b, a) {
      AheadOrStands(tcp, a.hash, b.hash);
    }
    forall a, b, c | leq(a, b) && leq(b, c) ensures leq(a, c) {
      NotAheadTransitive(tcp, a.hash, b.hash, c.hash);
    }
  }

  lemma RankSeparates(tcp: Pings, survivors: seq<NamedConfig>)
    requires DistinctNames(survivors)
    ensures Separates(Rank(tcp), multiset(survivors))
  {
    forall a, b | a in multiset(survivors) && b in multiset(survivors) && Rank(tcp)(a, b) && Rank(tcp)(b, a)
      ensures a == b
    {
      AheadOrStands(tcp, a.hash, b.hash);
      assert a in survivors && b in survivors;
    }
  }

  // ---- what is kept ------------------------------------------------------------------

  /** In place: under an effective cap the whole slice is sorted and its head is kept; otherwise
      nothing moves. */
  method LimitSurvivors(survivors: array<NamedConfig>, tcp: Pings, limit: int) returns (kept: nat)
    modifies survivors
    ensures kept <= survivors.Length && survivors[..kept] == Kept(tcp, old(survivors[..]), limit)
    ensures survivors[..] ==
      if Capped(survivors.Length, limit) then SortBy(Rank(tcp), old(survivors[..])) else old(survivors[..])
  {
    if limit <= 0 || survivors.Length <= limit {
      return survivors.Length;
    }
    StableSort(survivors, Rank(tcp));
    assert survivors[..limit] == survivors[..][..limit];
    return limit;
  }

  /** Under an effective cap exactly limit are kept; the kept and the dropped together are the
      survivors, and nobody dropped is ahead of anybody kept. */
  lemma KeptBeforeDropped(tcp: Pings, survivors: seq<NamedConfig>, limit: int)
    requires Capped(|survivors|, limit)
    ensures var sorted, kept := SortBy(Rank(tcp), survivors), Kept(tcp, survivors, limit);
      && |kept| == limit && kept <= sorted && multiset(kept) + multiset(sorted[limit..]) == multiset(survivors)
      && forall x, y | x in kept && y in sorted[limit..] :: !Ahead(tcp, y.hash, x.hash)
  {
    RankOrders(tcp);
    SortByCorrect(Rank(tcp), survivors);
    var sorted := SortBy(Rank(tcp), survivors);
    assert sorted == sorted[..limit] + sorted[limit..];
    forall x, y | x in sorted[..limit] && y in sorted[limit..] ensures !Ahead(tcp, y.hash, x.hash) {
      LaterBehind(tcp, sorted, limit, x, y);
    }
  }

  lemma LaterBehind(tcp: Pings, sorted: seq<NamedConfig>, limit: nat, x: NamedConfig, y: NamedConfig)
    requires Sorted(Rank(tcp), sorted) && limit <= |sorted| && x in sorted[..limit] && y in sorted[limit..]
    ensures !Ahead(tcp, y.hash, x.hash)
  {
    var i :| 0 <= i < limit && sorted[i] == x;
    var j :| 0 <= j < |sorted[limit..]| && sorted[limit..][j] == y;
    assert Rank(tcp)(sorted[i], sorted[limit + j]);
  }

  /** Strictly later in the dictionary is not earlier or equal. */
  lemma BeforeIsStrict(a: bytes, b: bytes)
    ensures Before(a, b) <==> !TextLeq(b, a)
  {
    TextLeqIsBefore(a, b);
    TextLeqIsBefore(b, a);
    TextLeqTotal(a, b);
  }

  /** The comparator without its early exits: a is measured and b is not; or both are and a is faster;
      or nothing of that decides and a's hash comes first in the dictionary. */
  lemma AheadSpelled(tcp: Pings, a: Hash, b: Hash)
    ensures Ahead(tcp, a, b) <==>
      || (a in tcp && b !in tcp)
      || (a in tcp && b in tcp && tcp[a].latency < tcp[b].latency)
      || (a in tcp && b in tcp && tcp[a].latency == tcp[b].latency && Before(a, b))
      || (a !in tcp && b !in tcp && Before(a, b))
  {
    BeforeIsStrict(a, b);
  }

  lemma KeptAhead(tcp: Pings, survivors: seq<NamedConfig>, limit: int, x: NamedConfig, y: NamedConfig)
    requires Capped(|survivors|, limit) && DistinctNames(survivors)
    requires x in Kept(tcp, survivors, limit) && y in survivors && y !in Kept(tcp, survivors, limit)
    ensures Ahead(tcp, x.hash, y.hash)
  {
    KeptBeforeDropped(tcp, survivors, limit);
    var kept, rest := Kept(tcp, survivors, limit), SortBy(Rank(tcp), survivors)[limit..];
    SameMembers(kept + rest, survivors);
    assert x in kept + rest && y in kept + rest;
    assert x.hash != y.hash;
    AheadOrStands(tcp, x.hash, y.hash);
  }

  /** Under an effective cap one survivor is kept and another dropped: the kept one is measured when
      the dropped one is, no slower when both are, and first in the dictionary when nothing of that
      decides. */
  lemma KeptFaster(tcp: Pings, survivors: seq<NamedConfig>, limit: int, x: NamedConfig, y: NamedConfig)
    requires Capped(|survivors|, limit) && DistinctNames(survivors)
    requires x in Kept(tcp, survivors, limit) && y in survivors && y !in Kept(tcp, survivors, limit)
    ensures y.hash in tcp ==> x.hash in tcp
    ensures x.hash in tcp && y.hash in tcp ==> tcp[x.hash].latency <= tcp[y.hash].latency
    ensures x.hash in tcp && y.hash in tcp && tcp[x.hash].latency == tcp[y.hash].latency ==> Before(x.hash, y.hash)
    ensures x.hash !in tcp && y.hash !in tcp ==> Before(x.hash, y.hash)
  {
    KeptAhead(tcp, survivors, limit, x, y);
    AheadSpelled(tcp, x.hash, y.hash);
  }

  /** And so for any two of the kept, the earlier one before the later. */
  lemma FasterFirst(tcp: Pings, survivors: seq<NamedConfig>, limit: int, i: nat, j: nat)
    requires Capped(|survivors|, limit) && DistinctNames(survivors) && i < j < |Kept(tcp, survivors, limit)|
    ensures var x, y := Kept(tcp, survivors, limit)[i].hash, Kept(tcp, survivors, limit)[j].hash;
      && (y in tcp ==> x in tcp)
      && (x in tcp && y in tcp ==> tcp[x].latency <= tcp[y].latency)
      && (x in tcp && y in tcp && tcp[x].latency == tcp[y].latency ==> Before(x, y))
      && (x !in tcp && y !in tcp ==> Before(x, y))
  {
    var sorted := SortBy(Rank(tcp), survivors);
    SortedRanks(tcp, survivors);
    assert Ahead(tcp, Hashes(sorted)[i], Hashes(sorted)[j]);
    AheadSpelled(tcp, sorted[i].hash, sorted[j].hash);
  }

  /** The survivors arrive in map order. What is kept does not depend on it, and neither does the
      order of the kept ones when the cap is effective. */
  lemma KeptForgetsOrder(tcp: Pings, a: seq<NamedConfig>, b: seq<NamedConfig>, limit: int)
    requires multiset(a) == multiset(b) && DistinctNames(a)
    ensures multiset(Kept(tcp, a, limit)) == multiset(Kept(tcp, b, limit))
    ensures Capped(|a|, limit) ==> Kept(tcp, a, limit) == Kept(tcp, b, limit)
  {
    assert |a| == |multiset(a)| == |b|;
    RankOrders(tcp);
    RankSeparates(tcp, a);
    SortByCanonical(Rank(tcp), a, b);
  }

  /** Raising the limit only adds: a prefix of what the larger limit keeps, when that one still
      cuts, and a part of it in any case. */
  lemma LargerLimitKeepsMore(tcp: Pings, survivors: seq<NamedConfig>, small: int, large: int)
    requires 0 < small <= large
    ensures Capped(|survivors|, large) ==> Kept(tcp, survivors, small) <= Kept(tcp, survivors, large)
    ensures multiset(Kept(tcp, survivors, small)) <= multiset(Kept(tcp, survivors, large))
  {
    var sorted := SortBy(Rank(tcp), survivors);
    RankOrders(tcp);
    SortByCorrect(Rank(tcp), survivors);
    if Capped(|survivors|, large) {
      assert sorted[..large] == sorted[..small] + sorted[small..large];
    } else if Capped(|survivors|, small) {
      assert sorted == sorted[..small] + sorted[small..];
    }
  }

  function Reversed<T>(s: seq<T>): (r: seq<T>)
    ensures |r| == |s| && multiset(r) == multiset(s)
    ensures s != [] ==> r[0] == s[|s| - 1]
  {
    if s == [] then []
    else
      assert s == s[..|s| - 1] + [s[|s| - 1]];
      [s[|s| - 1]] + Reversed(s[..|s| - 1])
  }

  /** The limits under which every arrival order of n survivors keeps a prefix. */
  predicate PrefixLimits(n: nat, small: int, large: int) { large < n || n <= small || small == large }

  lemma PrefixKept(tcp: Pings, survivors: seq<NamedConfig>, small: int, large: int)
    requires 0 < small <= large && PrefixLimits(|survivors|, small, large)
    ensures Kept(tcp, survivors, small) <= Kept(tcp, survivors, large)
  {
    LargerLimitKeepsMore(tcp, survivors, small, large);
  }

  /** The survivors in the reverse of their ranking. */
  lemma PrefixLost(tcp: Pings, survivors: seq<NamedConfig>, small: int, large: int) returns (s: seq<NamedConfig>)
    requires 0 < small <= large && !PrefixLimits(|survivors|, small, large) && DistinctNames(survivors)
    ensures multiset(s) == multiset(survivors) && !(Kept(tcp, s, small) <= Kept(tcp, s, large))
  {
    var sorted := SortBy(Rank(tcp), survivors);
    SortedRanks(tcp, survivors);
    DistinctNamesPermuted(survivors, sorted);
    s := Reversed(sorted);
    KeptForgetsOrder(tcp, survivors, s, small);
    assert Kept(tcp, s, small)[0] == sorted[0] && Kept(tcp, s, large)[0] == sorted[|sorted| - 1];
    assert sorted[0].hash != sorted[|sorted| - 1].hash;
  }

  /** A smaller limit keeps a prefix of what a larger one keeps, in every arrival order of the
      survivors, exactly when the larger limit still cuts, or the smaller cuts nothing either. */
  lemma PrefixIff(tcp: Pings, survivors: seq<NamedConfig>, small: int, large: int)
    requires 0 < small <= large && DistinctNames(survivors)
    ensures (forall s | multiset(s) == multiset(survivors) :: Kept(tcp, s, small) <= Kept(tcp, s, large))
      <==> PrefixLimits(|survivors|, small, large)
  {
    if PrefixLimits(|survivors|, small, large) {
      forall s | multiset(s) == multiset(survivors) ensures Kept(tcp, s, small) <= Kept(tcp, s, large) {
        assert |s| == |multiset(s)| == |survivors|;
        PrefixKept(tcp, s, small, large);
      }
    } else {
      var s := PrefixLost(tcp, survivors, small, large);
    }
  }

  const FIRST: NamedConfig := NamedConfig([1], Config([], [], 0, []))
  const SECOND: NamedConfig := NamedConfig([2], Config([], [], 0, []))
  const PINGS: Pings := map[FIRST.hash := Ping(true, 20), SECOND.hash := Ping(true, 10)]

  lemma SecondAhead()
    ensures Ahead(PINGS, SECOND.hash, FIRST.hash)
  {
    assert FIRST.hash[0] != SECOND.hash[0];
  }

  /** Two survivors at 20 and 10 milliseconds, the slower first: a limit of one keeps the faster,
      a limit of two keeps both as they came. */
  lemma PrefixCanBeLost()
    ensures Kept(PINGS, [FIRST, SECOND], 1) == [SECOND] && Kept(PINGS, [FIRST, SECOND], 2) == [FIRST, SECOND]
  {
    SecondAhead();
    SortTwo(Rank(PINGS), FIRST, SECOND);
    assert [SECOND, FIRST][..1] == [SECOND];
  }

  /** The faster of two survivors is kept whether its hash is the lesser or the greater one, and
      whatever the order of arrival; on equal latencies it is the one with the lesser hash. */
  lemma OneOfTwo(a: int, b: int)
    ensures var tcp: Pings := map[FIRST.hash := Ping(true, a), SECOND.hash := Ping(true, b)];
      && Kept(tcp, [FIRST, SECOND], 1) == [if a <= b then FIRST else SECOND]
      && Kept(tcp, [SECOND, FIRST], 1) == [if a <= b then FIRST else SECOND]
  {
    var tcp: Pings := map[FIRST.hash := Ping(true, a), SECOND.hash := Ping(true, b)];
    assert FIRST.hash[0] < SECOND.hash[0];
    SortTwo(Rank(tcp), FIRST, SECOND);
    SortTwo(Rank(tcp), SECOND, FIRST);
    assert [FIRST, SECOND][..1] == [FIRST] && [SECOND, FIRST][..1] == [SECOND];
  }

  // ---- the kept set, without sorting -------------------------------------------------

  function AheadOf(tcp: Pings, hashes: set<Hash>, h: Hash): set<Hash> {
    set g | g in hashes && Ahead(tcp, g, h)
  }

  /** The hashes with fewer than limit others ahead of them. */
  function KeptSet(tcp: Pings, hashes: set<Hash>, limit: int): set<Hash> {
    if limit <= 0 then hashes else set h | h in hashes && |AheadOf(tcp, hashes, h)| < limit
  }

  ghost predicate Ranked(tcp: Pings, s: seq<Hash>) {
    forall i, j | 0 <= i < j < |s| :: Ahead(tcp, s[i], s[j])
  }

  lemma AheadOfIndex(tcp: Pings, s: seq<Hash>, i: nat)
    requires Ranked(tcp, s) && i < |s|
    ensures |AheadOf(tcp, Elements(s), s[i])| == i
  {
    forall g | g in s[..i] ensures g in AheadOf(tcp, Elements(s), s[i]) {
    }
    forall g | g in AheadOf(tcp, Elements(s), s[i]) ensures g in s[..i] {
      var j :| 0 <= j < |s| && s[j] == g;
      AheadOrStands(tcp, s[i], s[j]);
    }
    assert AheadOf(tcp, Elements(s), s[i]) == Elements(s[..i]);
    RankedDistinct(tcp, s);
    DistinctSize(s[..i]);
  }

  lemma RankedDistinct(tcp: Pings, s: seq<Hash>)
    requires Ranked(tcp, s)
    ensures Distinct(s)
  {
    forall i, j | 0 <= i < j < |s| ensures s[i] != s[j] {
      AheadOrStands(tcp, s[i], s[i]);
    }
  }

  lemma RankedPrefix(tcp: Pings, s: seq<Hash>, limit: int)
    requires Ranked(tcp, s) && 0 < limit
    ensures Elements(if limit < |s| then s[..limit] else s) == KeptSet(tcp, Elements(s), limit)
  {
    var kept := if limit < |s| then s[..limit] else s;
    forall h | h in s ensures h in kept <==> h in KeptSet(tcp, Elements(s), limit) {
      var i :| 0 <= i < |s| && s[i] == h;
      AheadOfIndex(tcp, s, i);
      RankedDistinct(tcp, s);
    }
  }

  /** What is kept, in terms of ranks alone: a survivor goes on exactly when fewer than limit of
      the others are ahead of it. */
  lemma KeptAreTheBest(tcp: Pings, survivors: seq<NamedConfig>, limit: int)
    requires DistinctNames(survivors)
    ensures Elements(Hashes(Kept(tcp, survivors, limit))) == KeptSet(tcp, Elements(Hashes(survivors)), limit)
  {
    if limit > 0 {
      var sorted := SortBy(Rank(tcp), survivors);
      SortedRanks(tcp, survivors);
      RankedPrefix(tcp, Hashes(sorted), limit);
      SameHashes(sorted, survivors);
      if Capped(|survivors|, limit) {
        assert Hashes(sorted[..limit]) == Hashes(sorted)[..limit];
      }
    }
  }

  lemma SameHashes(a: seq<NamedConfig>, b: seq<NamedConfig>)
    requires multiset(a) == multiset(b)
    ensures Elements(Hashes(a)) == Elements(Hashes(b))
  {
    SameMembers(a, b);
    HashesIn(a, b);
    HashesIn(b, a);
  }

  lemma HashesIn(a: seq<NamedConfig>, b: seq<NamedConfig>)
    requires forall x | x in a :: x in b
    ensures Elements(Hashes(a)) <= Elements(Hashes(b))
  {
    forall h | h in Hashes(a) ensures h in Hashes(b) {
      var i :| 0 <= i < |Hashes(a)| && Hashes(a)[i] == h;
      assert a[i] in b;
      var j :| 0 <= j < |b| && b[j] == a[i];
      assert Hashes(b)[j] == h;
    }
  }

  lemma SortedRanks(tcp: Pings, survivors: seq<NamedConfig>)
    requires DistinctNames(survivors)
    ensures Ranked(tcp, Hashes(SortBy(Rank(tcp), survivors)))
    ensures multiset(SortBy(Rank(tcp), survivors)) == multiset(survivors)
  {
    RankOrders(tcp);
    SortByCorrect(Rank(tcp), survivors);
    var sorted := SortBy(Rank(tcp), survivors);
    DistinctNamesPermuted(survivors, sorted);
    forall i, j | 0 <= i < j < |sorted| ensures Ahead(tcp, sorted[i].hash, sorted[j].hash) {
      assert Rank(tcp)(sorted[i], sorted[j]);
      AheadOrStands(tcp, sorted[i].hash, sorted[j].hash);
    }
  }

  lemma DistinctNamesPermuted(a: seq<NamedConfig>, b: seq<NamedConfig>)
    requires DistinctNames(a) && multiset(a) == multiset(b)
    ensures DistinctNames(b)
  {
    assert Distinct(a);
    PermutedDistinct(a, b);
    SameMembers(a, b);
    forall i, j | 0 <= i < j < |b| ensures b[i].hash != b[j].hash {
      assert b[i] in a && b[j] in a && b[i] != b[j];
    }
  }
}
