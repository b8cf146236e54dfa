/** Stable sorting by a total preorder: Go's sort.SliceStable as a specification function,
    an in-place insertion sort that computes it, and the facts that make sorted output
    canonical (independent of the order in which the elements arrived). */
module Sorting {

  ghost predicate TotalPreorder<T(!new)>(leq: (T, T) -> bool) {
    && (forall a, b :: leq(a, b) || leq(b, a))
    && (forall a, b, c :: leq(a, b) && leq(b, c) ==> leq(a, c))
  }

  ghost predicate Sorted<T>(leq: (T, T) -> bool, s: seq<T>) {
    forall i, j | 0 <= i < j < |s| :: leq(s[i], s[j])
  }

  /** Elements that the order cannot tell apart are equal. */
  ghost predicate Separates<T(!new)>(leq: (T, T) -> bool, elements: multiset<T>) {
    forall a, b | a in elements && b in elements && leq(a, b) && leq(b, a) :: a == b
  }

  ghost predicate Reflexive<T(!new)>(leq: (T, T) -> bool, elements: multiset<T>) {
    forall x | x in elements :: leq(x, x)
  }

  ghost predicate Distinct<T>(s: seq<T>) {
    forall i, j | 0 <= i < j < |s| :: s[i] != s[j]
  }

  function Elements<T>(s: seq<T>): set<T> { set x | x in s }

  lemma SameMembers<T>(a: seq<T>, b: seq<T>)
    requires multiset(a) == multiset(b)
    ensures (forall x :: x in a <==> x in b) && Elements(a) == Elements(b)
  {
    forall x ensures x in a <==> x in b {
      assert x in multiset(a) <==> x in multiset(b);
    }
  }

  lemma {:induction false} DistinctSize<T>(s: seq<T>)
    requires Distinct(s)
    ensures |Elements(s)| == |s|
  {
    if s != [] {
      var front, last := s[..|s| - 1], s[|s| - 1];
      DistinctSize(front);
      assert s == front + [last];
      assert Elements(s) == Elements(front) + {last};
    }
  }

  /** Places x after every element that is not greater than it. */
  function Insert<T>(leq: (T, T) -> bool, s: seq<T>, x: T): (r: seq<T>)
    ensures |r| == |s| + 1
  {
    if s == [] || leq(s[|s| - 1], x) then s + [x]
    else Insert(leq, s[..|s| - 1], x) + [s[|s| - 1]]
  }

  function SortBy<T>(leq: (T, T) -> bool, s: seq<T>): (r: seq<T>)
    ensures |r| == |s|
  {
    if s == [] then [] else Insert(leq, SortBy(leq, s[..|s| - 1]), s[|s| - 1])
  }

  lemma {:induction false} InsertBound<T>(leq: (T, T) -> bool, s: seq<T>, x: T, top: T)
    requires leq(x, top) && forall i | 0 <= i < |s| :: leq(s[i], top)
    ensures forall i | 0 <= i < |Insert(leq, s, x)| :: leq(Insert(leq, s, x)[i], top)
  {
    if s != [] && !leq(s[|s| - 1], x) {
      InsertBound(leq, s[..|s| - 1], x, top);
    }
  }

  lemma {:induction false} InsertPermutes<T>(leq: (T, T) -> bool, s: seq<T>, x: T)
    ensures multiset(Insert(leq, s, x)) == multiset(s) + multiset{x}
  {
    if s != [] && !leq(s[|s| - 1], x) {
      InsertPermutes(leq, s[..|s| - 1], x);
      assert s == s[..|s| - 1] + [s[|s| - 1]];
    }
  }

  lemma {:induction false} InsertSorted<T(!new)>(leq: (T, T) -> bool, s: seq<T>, x: T)
    requires TotalPreorder(leq) && Sorted(leq, s)
    ensures Sorted(leq, Insert(leq, s, x))
  {
    if s != [] {
      var front, last := s[..|s| - 1], s[|s| - 1];
      if leq(last, x) {
        assert forall i | 0 <= i < |s| :: leq(s[i], last);
        assert forall i | 0 <= i < |s| :: leq(s[i], x);
      } else {
        InsertSorted(leq, front, x);
        InsertBound(leq, front, x, last);
      }
    }
  }

  lemma {:induction false} SortByCorrect<T(!new)>(leq: (T, T) -> bool, s: seq<T>)
    requires TotalPreorder(leq)
    ensures Sorted(leq, SortBy(leq, s))
    ensures multiset(SortBy(leq, s)) == multiset(s)
  {
    if s != [] {
      SortByCorrect(leq, s[..|s| - 1]);
      InsertSorted(leq, SortBy(leq, s[..|s| - 1]), s[|s| - 1]);
      InsertPermutes(leq, SortBy(leq, s[..|s| - 1]), s[|s| - 1]);
      assert s == s[..|s| - 1] + [s[|s| - 1]];
    }
  }

  lemma SortTwo<T>(leq: (T, T) -> bool, a: T, b: T)
    ensures SortBy(leq, [a, b]) == if leq(a, b) then [a, b] else [b, a]
  {
    assert [a, b][..1] == [a] && [a][..0] == [];
    assert SortBy(leq, [a]) == [a];
    assert !leq(a, b) ==> Insert(leq, [a], b) == Insert(leq, [], b) + [a];
  }

  function Filter<T>(p: T -> bool, s: seq<T>): seq<T> {
    if s == [] then [] else Filter(p, s[..|s| - 1]) + (if p(s[|s| - 1]) then [s[|s| - 1]] else [])
  }

  /** Elements that the order does not tell apart. */
  ghost predicate Ties<T(!new)>(leq: (T, T) -> bool, p: T -> bool) { forall a, b | p(a) && p(b) :: leq(a, b) }

  lemma {:induction false} InsertKeepsTies<T(!new)>(leq: (T, T) -> bool, p: T -> bool, s: seq<T>, x: T)
    requires Ties(leq, p)
    ensures Filter(p, Insert(leq, s, x)) == Filter(p, s) + (if p(x) then [x] else [])
  {
    if s == [] || leq(s[|s| - 1], x) {
      assert (s + [x])[..|s|] == s;
    } else {
      var front, last := s[..|s| - 1], s[|s| - 1];
      InsertKeepsTies(leq, p, front, x);
      assert (Insert(leq, front, x) + [last])[..|s|] == Insert(leq, front, x);
    }
  }

  /** Stability: elements that tie stay in the order in which they were. */
  lemma {:induction false} SortKeepsTies<T(!new)>(leq: (T, T) -> bool, p: T -> bool, s: seq<T>)
    requires Ties(leq, p)
    ensures Filter(p, SortBy(leq, s)) == Filter(p, s)
  {
    if s != [] {
      SortKeepsTies(leq, p, s[..|s| - 1]);
      InsertKeepsTies(leq, p, SortBy(leq, s[..|s| - 1]), s[|s| - 1]);
    }
  }

  lemma LeastFirst<T(!new)>(leq: (T, T) -> bool, a: seq<T>, b: seq<T>)
    requires a != [] && Sorted(leq, a) && leq(a[0], a[0]) && multiset(b) <= multiset(a) && b != []
    ensures leq(a[0], b[0])
  {
    assert b[0] in multiset(b);
    var j :| 0 <= j < |a| && a[j] == b[0];
  }

  lemma DropFirst<T>(a: seq<T>, b: seq<T>)
    requires a != [] && b != [] && a[0] == b[0] && multiset(a) == multiset(b)
    ensures multiset(a[1..]) == multiset(b[1..])
  {
    assert a == [a[0]] + a[1..] && b == [b[0]] + b[1..];
    assert multiset(a[1..]) == multiset(a) - multiset{a[0]};
    assert multiset(b[1..]) == multiset(b) - multiset{b[0]};
  }

  lemma SameHead<T(!new)>(leq: (T, T) -> bool, a: seq<T>, b: seq<T>)
    requires Sorted(leq, a) && Sorted(leq, b) && multiset(a) == multiset(b) && a != [] && b != []
    requires Reflexive(leq, multiset(a)) && Separates(leq, multiset(a))
    ensures a[0] == b[0]
  {
    assert a[0] in multiset(a) && b[0] in multiset(b);
    LeastFirst(leq, a, b);
    LeastFirst(leq, b, a);
  }

  /** There is only one way to sort a multiset whose elements the order separates. */
  lemma {:induction false} SortedUnique<T(!new)>(leq: (T, T) -> bool, a: seq<T>, b: seq<T>)
    requires Sorted(leq, a) && Sorted(leq, b) && multiset(a) == multiset(b)
    requires Reflexive(leq, multiset(a)) && Separates(leq, multiset(a))
    ensures a == b
  {
    assert |a| == |multiset(a)| == |b|;
    if a != [] {
      SameHead(leq, a, b);
      DropFirst(a, b);
      assert multiset(a[1..]) <= multiset(a) by { assert a == [a[0]] + a[1..]; }
      SortedUnique(leq, a[1..], b[1..]);
      assert a == [a[0]] + a[1..] && b == [b[0]] + b[1..];
    }
  }

  /** Sorting forgets the arrival order. */
  lemma SortByCanonical<T(!new)>(leq: (T, T) -> bool, a: seq<T>, b: seq<T>)
    requires TotalPreorder(leq) && multiset(a) == multiset(b) && Separates(leq, multiset(a))
    ensures SortBy(leq, a) == SortBy(leq, b)
  {
    SortByCorrect(leq, a);
    SortByCorrect(leq, b);
    SortedUnique(leq, SortBy(leq, a), SortBy(leq, b));
  }

  /** A duplicate-free sequence is a part of every sequence that has all its elements. */
  lemma DistinctPart<T>(a: seq<T>, b: seq<T>)
    requires Distinct(a) && forall x | x in a :: x in b
    ensures multiset(a) <= multiset(b)
  {
    forall x | x in multiset(a) ensures multiset(a)[x] <= multiset(b)[x] {
      DistinctOnce(a, x);
      assert x in b;
    }
  }

  /** Two duplicate-free sequences over the same set are permutations of each other. */
  lemma SameSetSameMultiset<T>(a: seq<T>, b: seq<T>)
    requires Distinct(a) && Distinct(b)
    requires forall x :: x in a <==> x in b
    ensures multiset(a) == multiset(b)
  {
    DistinctPart(a, b);
    DistinctPart(b, a);
  }

  lemma {:induction false} DistinctOnce<T>(s: seq<T>, x: T)
    requires Distinct(s)
    ensures multiset(s)[x] == if x in s then 1 else 0
  {
    if s != [] {
      DistinctOnce(s[1..], x);
      assert s == [s[0]] + s[1..];
    }
  }

  lemma DistinctAppend<T>(s: seq<T>, x: T)
    requires Distinct(s) && x !in s
    ensures Distinct(s + [x])
  {
  }

  lemma PartDistinct<T>(a: seq<T>, b: seq<T>)
    requires multiset(a) <= multiset(b) && Distinct(b)
    ensures Distinct(a)
  {
    forall i, j | 0 <= i < j < |a| ensures a[i] != a[j] {
      DistinctOnce(b, a[i]);
      TwiceCounted(a, i, j);
    }
  }

  lemma PermutedDistinct<T>(a: seq<T>, b: seq<T>)
    requires multiset(a) == multiset(b) && Distinct(a)
    ensures Distinct(b)
  {
    PartDistinct(b, a);
  }

  lemma TwiceCounted<T>(s: seq<T>, i: nat, j: nat)
    requires i < j < |s|
    ensures s[i] == s[j] ==> multiset(s)[s[i]] >= 2
  {
    assert s == s[..j] + [s[j]] + s[j + 1..];
    assert s[..j][i] in multiset(s[..j]);
  }

  // ---- mapping -----------------------------------------------------------------------

  function Map<A, B>(f: A -> B, s: seq<A>): (r: seq<B>)
    ensures |r| == |s| && forall i | 0 <= i < |r| :: r[i] == f(s[i])
  {
    seq(|s|, i requires 0 <= i < |s| => f(s[i]))
  }

  lemma MapAppend<A, B>(f: A -> B, s: seq<A>, t: seq<A>)
    ensures Map(f, s + t) == Map(f, s) + Map(f, t)
  {
  }

  function RemoveAt<T>(s: seq<T>, j: nat): (r: seq<T>)
    requires j < |s|
    ensures |r| == |s| - 1
  {
    s[..j] + s[j + 1..]
  }

  lemma RemoveOne<T>(s: seq<T>, j: nat)
    requires j < |s|
    ensures multiset(s) == multiset(RemoveAt(s, j)) + multiset{s[j]}
  {
    assert s == s[..j] + [s[j]] + s[j + 1..];
  }

  lemma MapRemove<A, B>(f: A -> B, s: seq<A>, j: nat)
    requires j < |s|
    ensures multiset(Map(f, s)) == multiset(Map(f, RemoveAt(s, j))) + multiset{f(s[j])}
  {
    RemoveOne(Map(f, s), j);
    assert Map(f, RemoveAt(s, j)) == RemoveAt(Map(f, s), j);
  }

  lemma RemoveBelow<T>(a: seq<T>, i: nat, b: seq<T>, j: nat)
    requires i < |a| && j < |b| && a[i] == b[j] && multiset(a) <= multiset(b)
    ensures multiset(RemoveAt(a, i)) <= multiset(RemoveAt(b, j))
  {
    RemoveOne(a, i);
    RemoveOne(b, j);
    assert multiset(RemoveAt(a, i)) == multiset(a) - multiset{a[i]};
    assert multiset(RemoveAt(b, j)) == multiset(b) - multiset{b[j]};
  }

  /** Mapping keeps one sequence a part of another. */
  lemma {:induction false} MapPart<A, B>(f: A -> B, a: seq<A>, b: seq<A>)
    requires multiset(a) <= multiset(b)
    ensures multiset(Map(f, a)) <= multiset(Map(f, b))
    decreases |a|
  {
    if a != [] {
      assert a[0] in multiset(a);
      var j :| 0 <= j < |b| && b[j] == a[0];
      RemoveBelow(a, 0, b, j);
      MapPart(f, RemoveAt(a, 0), RemoveAt(b, j));
      MapRemove(f, a, 0);
      MapRemove(f, b, j);
    }
  }

  lemma MapPermuted<A, B>(f: A -> B, a: seq<A>, b: seq<A>)
    requires multiset(a) == multiset(b)
    ensures multiset(Map(f, a)) == multiset(Map(f, b))
  {
    MapPart(f, a, b);
    MapPart(f, b, a);
  }

  /** An order that only looks at f: sorting first or mapping first is the same. */
  lemma {:induction false} InsertMapped<A(!new), B>(
      below: (A, A) -> bool, leq: (B, B) -> bool, f: A -> B, s: seq<A>, x: A)
    requires forall a, b :: below(a, b) == leq(f(a), f(b))
    ensures Map(f, Insert(below, s, x)) == Insert(leq, Map(f, s), f(x))
  {
    if s != [] {
      var front, last := s[..|s| - 1], s[|s| - 1];
      assert Map(f, s)[..|s| - 1] == Map(f, front);
      if !below(last, x) {
        InsertMapped(below, leq, f, front, x);
        MapAppend(f, Insert(below, front, x), [last]);
      }
    }
  }

  lemma {:induction false} SortMapped<A(!new), B>(below: (A, A) -> bool, leq: (B, B) -> bool, f: A -> B, s: seq<A>)
    requires forall a, b :: below(a, b) == leq(f(a), f(b))
    ensures Map(f, SortBy(below, s)) == SortBy(leq, Map(f, s))
  {
    if s != [] {
      SortMapped(below, leq, f, s[..|s| - 1]);
      InsertMapped(below, leq, f, SortBy(below, s[..|s| - 1]), s[|s| - 1]);
      assert Map(f, s)[..|s| - 1] == Map(f, s[..|s| - 1]);
    }
  }

  /** In-place insertion sort: what the library call leaves in the slice. */
  method StableSort<T>(a: array<T>, leq: (T, T) -> bool)
    modifies a
    ensures a[..] == SortBy(leq, old(a[..]))
  {
    ghost var was := a[..];
    assert was[..0] == [];
    var n := 0;
    while n < a.Length
      invariant 0 <= n <= a.Length
      invariant a[..n] == SortBy(leq, was[..n])
      invariant a[n..] == was[n..]
    {
      SinkLast(a, n, leq);
      assert was[..n + 1][..n] == was[..n] && was[n] == was[n..][0];
      n := n + 1;
    }
    assert a[..] == a[..n] && was[..n] == was;
  }

  method SinkLast<T>(a: array<T>, n: nat, leq: (T, T) -> bool)
    requires n < a.Length
    modifies a
    ensures a[..n + 1] == Insert(leq, old(a[..n]), old(a[n]))
    ensures a[n + 1..] == old(a[n + 1..])
  {
    ghost var s, x := a[..n], a[n];
    var j := n;
    assert s[..n] == s;
    assert a[..] == Hole(s, x, j) + old(a[n + 1..]);
    while j > 0 && !leq(a[j - 1], a[j])
      invariant 0 <= j <= n
      invariant a[..] == Hole(s, x, j) + old(a[n + 1..])
      invariant Insert(leq, s, x) == Insert(leq, s[..j], x) + s[j..]
    {
      ghost var t := a[..];
      assert t[j - 1] == s[j - 1] && t[j] == x;
      InsertSinks(leq, s, j, x);
      HoleMoves(s, x, j, old(a[n + 1..]));
      a[j - 1], a[j] := a[j], a[j - 1];
      assert a[..] == t[j - 1 := x][j := s[j - 1]];
      j := j - 1;
    }
    ghost var t := a[..];
    assert j > 0 ==> t[j - 1] == s[j - 1];
    assert t[j] == x;
    InsertStops(leq, s, j, x);
    assert a[..n + 1] == t[..n + 1] && a[n + 1..] == t[n + 1..];
  }

  /** s with x slotted in at position j. */
  ghost function Hole<T>(s: seq<T>, x: T, j: nat): (r: seq<T>)
    requires j <= |s|
    ensures |r| == |s| + 1
  {
    s[..j] + [x] + s[j..]
  }

  lemma HoleMoves<T>(s: seq<T>, x: T, j: nat, rest: seq<T>)
    requires 0 < j <= |s|
    ensures (Hole(s, x, j) + rest)[j - 1 := x][j := s[j - 1]] == Hole(s, x, j - 1) + rest
  {
  }

  lemma InsertSinks<T>(leq: (T, T) -> bool, s: seq<T>, j: nat, x: T)
    requires 0 < j <= |s| && !leq(s[j - 1], x)
    ensures Insert(leq, s[..j], x) + s[j..] == Insert(leq, s[..j - 1], x) + s[j - 1..]
  {
    assert s[..j][..j - 1] == s[..j - 1];
    assert [s[j - 1]] + s[j..] == s[j - 1..];
  }

  lemma InsertStops<T>(leq: (T, T) -> bool, s: seq<T>, j: nat, x: T)
    requires j <= |s| && (j == 0 || leq(s[j - 1], x))
    ensures Insert(leq, s[..j], x) + s[j..] == Hole(s, x, j)
  {
  }
}
