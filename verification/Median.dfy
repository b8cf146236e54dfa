/** The median of the latencies a stability gate measured: medianDuration of
    internal/tester/pipeline.go. Durations are integers (nanoseconds). */
module Median {
  import opened Sorting

  function IntOrder(): (int, int) -> bool { (a: int, b: int) => a <= b }

  /** Go's integer division by two truncates toward zero. */
  function Half(x: int): int { if x >= 0 then x / 2 else -(-x / 2) }

  function MiddleOf(sorted: seq<int>): int {
    var mid := |sorted| / 2;
    if sorted == [] then 0
    else if |sorted| % 2 == 1 then sorted[mid]
    else Half(sorted[mid - 1] + sorted[mid])
  }

  function MedianOf(samples: seq<int>): int { MiddleOf(SortBy(IntOrder(), samples)) }

  /** Sorts a copy: the samples themselves are not modified. */
  method MedianDuration(samples: array<int>) returns (m: int)
    ensures m == MedianOf(samples[..])
  {
    if samples.Length == 0 {
      return 0;
    }
    var sorted := new int[samples.Length];
    for i := 0 to samples.Length
      invariant sorted[..i] == samples[..i]
    {
      sorted[i] := samples[i];
    }
    assert sorted[..] == sorted[..samples.Length] == samples[..];
    StableSort(sorted, IntOrder());
    assert sorted[..] == SortBy(IntOrder(), samples[..]);
    var mid := sorted.Length / 2;
    if sorted.Length % 2 == 1 {
      return sorted[mid];
    }
    return Half(sorted[mid - 1] + sorted[mid]);
  }

  // ---- counting ----------------------------------------------------------------------

  function Count(p: int -> bool, s: seq<int>): nat {
    if s == [] then 0 else Count(p, s[..|s| - 1]) + (if p(s[|s| - 1]) then 1 else 0)
  }

  function AtMost(x: int): int -> bool { (v: int) => v <= x }
  function Within(lo: int, hi: int): int -> bool { (v: int) => lo <= v <= hi }

  lemma {:induction false} CountInsert(p: int -> bool, s: seq<int>, x: int)
    ensures Count(p, Insert(IntOrder(), s, x)) == Count(p, s) + (if p(x) then 1 else 0)
  {
    var r := Insert(IntOrder(), s, x);
    if s == [] || s[|s| - 1] <= x {
      assert r[..|s|] == s;
    } else {
      CountInsert(p, s[..|s| - 1], x);
      assert r[..|s|] == Insert(IntOrder(), s[..|s| - 1], x);
    }
  }

  lemma {:induction false} CountSorted(p: int -> bool, s: seq<int>)
    ensures Count(p, SortBy(IntOrder(), s)) == Count(p, s)
  {
    if s != [] {
      CountSorted(p, s[..|s| - 1]);
      CountInsert(p, SortBy(IntOrder(), s[..|s| - 1]), s[|s| - 1]);
    }
  }

  /** In sorted order, position j holds a value up to x exactly when more than j samples do. */
  lemma {:induction false} RankOf(s: seq<int>, x: int, j: nat)
    requires Sorted(IntOrder(), s) && j < |s|
    ensures s[j] <= x <==> Count(AtMost(x), s) > j
  {
    CountPrefix(s, x);
  }

  lemma {:induction false} CountPrefix(s: seq<int>, x: int)
    requires Sorted(IntOrder(), s)
    ensures var n := Count(AtMost(x), s); n <= |s| && forall i | 0 <= i < |s| :: s[i] <= x <==> i < n
  {
    if s != [] {
      var front := s[..|s| - 1];
      CountPrefix(front, x);
      assert forall i | 0 <= i < |front| :: front[i] == s[i] && IntOrder()(s[i], s[|s| - 1]);
    }
  }

  lemma {:induction false} CountMonotone(a: seq<int>, b: seq<int>, x: int)
    requires |a| == |b| && forall i | 0 <= i < |a| :: a[i] <= b[i]
    ensures Count(AtMost(x), a) >= Count(AtMost(x), b)
  {
    if a != [] {
      CountMonotone(a[..|a| - 1], b[..|b| - 1], x);
    }
  }

  lemma {:induction false} CountSplit(s: seq<int>, lo: int, hi: int)
    requires lo <= hi
    ensures Count(AtMost(lo - 1), s) + Count(Within(lo, hi), s) == Count(AtMost(hi), s) <= |s|
  {
    if s != [] {
      CountSplit(s[..|s| - 1], lo, hi);
    }
  }

  // ---- properties --------------------------------------------------------------------

  lemma IntsSort(s: seq<int>)
    ensures Sorted(IntOrder(), SortBy(IntOrder(), s)) && multiset(SortBy(IntOrder(), s)) == multiset(s)
  {
    SortByCorrect(IntOrder(), s);
  }

  lemma RankInSorted(s: seq<int>, j: nat, x: int)
    requires j < |s|
    ensures SortBy(IntOrder(), s)[j] <= x <==> Count(AtMost(x), s) > j
  {
    IntsSort(s);
    RankOf(SortBy(IntOrder(), s), x, j);
    CountSorted(AtMost(x), s);
  }

  /** The order in which the passes ran does not matter. */
  lemma MedianPermuted(a: seq<int>, b: seq<int>)
    requires multiset(a) == multiset(b)
    ensures MedianOf(a) == MedianOf(b)
  {
    SortByCanonical(IntOrder(), a, b);
  }

  lemma OrderStatisticMonotone(a: seq<int>, b: seq<int>, j: nat)
    requires |a| == |b| && j < |a| && forall i | 0 <= i < |a| :: a[i] <= b[i]
    ensures SortBy(IntOrder(), a)[j] <= SortBy(IntOrder(), b)[j]
  {
    var x := SortBy(IntOrder(), b)[j];
    RankInSorted(b, j, x);
    CountMonotone(a, b, x);
    RankInSorted(a, j, x);
  }

  /** Slowing passes down never lowers the median. */
  lemma MedianMonotone(a: seq<int>, b: seq<int>)
    requires |a| == |b| && forall i | 0 <= i < |a| :: a[i] <= b[i]
    ensures MedianOf(a) <= MedianOf(b)
  {
    if a != [] {
      OrderStatisticMonotone(a, b, |a| / 2);
      if |a| % 2 == 0 {
        OrderStatisticMonotone(a, b, |a| / 2 - 1);
      }
    }
  }

  lemma OrderStatisticWithin(s: seq<int>, lo: int, hi: int, j: nat)
    requires j < |s| && Count(AtMost(lo - 1), s) <= j < Count(AtMost(hi), s)
    ensures lo <= SortBy(IntOrder(), s)[j] <= hi
  {
    var below := lo - 1;
    RankInSorted(s, j, hi);
    RankInSorted(s, j, below);
  }

  /** The ranks the median is taken from: one when n is odd, two when it is even. */
  predicate Middle(n: nat, j: int) { 0 <= j < n && n - 2 <= 2 * j <= n && (n % 2 == 1 ==> n == 2 * j + 1) }

  lemma MiddleWithin(sorted: seq<int>, lo: int, hi: int)
    requires sorted != []
    requires forall j | Middle(|sorted|, j) :: lo <= sorted[j] <= hi
    ensures lo <= MiddleOf(sorted) <= hi
  {
  }

  lemma CountsAround(s: seq<int>, lo: int, hi: int) returns (below: nat, inside: nat)
    requires lo <= hi
    ensures below == Count(AtMost(lo - 1), s) && inside == Count(Within(lo, hi), s)
    ensures below + inside == Count(AtMost(hi), s) <= |s|
  {
    CountSplit(s, lo, hi);
    below, inside := Count(AtMost(lo - 1), s), Count(Within(lo, hi), s);
  }

  /** The median stays where strictly more than half of the samples are. */
  lemma MedianMajority(s: seq<int>, lo: int, hi: int)
    requires lo <= hi && 2 * Count(Within(lo, hi), s) > |s|
    ensures lo <= MedianOf(s) <= hi
  {
    var below, inside := CountsAround(s, lo, hi);
    var sorted := SortBy(IntOrder(), s);
    forall j | Middle(|s|, j) ensures lo <= sorted[j] <= hi {
      OrderStatisticWithin(s, lo, hi, j);
    }
    MiddleWithin(sorted, lo, hi);
  }

  // ---- without sorting ---------------------------------------------------------------

  /** x is the value with exactly j samples before it in ascending order: at most j are smaller, and
      more than j are at most x. */
  ghost predicate HasRank(s: seq<int>, j: nat, x: int) { Count(AtMost(x - 1), s) <= j < Count(AtMost(x), s) }

  lemma SortedHasRank(s: seq<int>, j: nat, x: int)
    requires j < |s| && SortBy(IntOrder(), s)[j] == x
    ensures HasRank(s, j, x)
  {
    var y := x - 1;
    RankInSorted(s, j, x);
    RankInSorted(s, j, y);
  }

  lemma RankUnique(s: seq<int>, j: nat, x: int, y: int)
    requires HasRank(s, j, x) && x < y
    ensures !HasRank(s, j, y)
  {
    CountGrows(s, x, y - 1);
  }

  lemma {:induction false} CountGrows(s: seq<int>, x: int, y: int)
    requires x <= y
    ensures Count(AtMost(x), s) <= Count(AtMost(y), s)
  {
    if s != [] {
      CountGrows(s[..|s| - 1], x, y);
    }
  }

  /** The median of an odd number of samples is the middle one, that of an even number half the sum of
      the middle two, a remainder dropped; of none it is 0. */
  lemma MedianByRank(s: seq<int>, a: int, b: int)
    requires s != [] ==> HasRank(s, (|s| - 1) / 2, a) && HasRank(s, |s| / 2, b)
    ensures s == [] ==> MedianOf(s) == 0
    ensures |s| % 2 == 1 ==> MedianOf(s) == a == b
    ensures s != [] && |s| % 2 == 0 ==>
      var m := MedianOf(s); if a + b >= 0 then 2 * m == a + b - (a + b) % 2 else 2 * m == a + b + (a + b) % 2
  {
    if s != [] {
      RankAt(s, (|s| - 1) / 2, a);
      RankAt(s, |s| / 2, b);
    }
  }

  lemma RankAt(s: seq<int>, j: nat, x: int)
    requires j < |s| && HasRank(s, j, x)
    ensures SortBy(IntOrder(), s)[j] == x
  {
    var y := SortBy(IntOrder(), s)[j];
    SortedHasRank(s, j, y);
    if x < y {
      RankUnique(s, j, x, y);
    } else if y < x {
      RankUnique(s, j, y, x);
    }
  }

  /** Two samples: their average, whatever their order. */
  lemma MedianOfTwo(a: int, b: int)
    requires a + b >= 0
    ensures MedianOf([a, b]) == (a + b) / 2
  {
    SortTwo(IntOrder(), a, b);
  }
}
