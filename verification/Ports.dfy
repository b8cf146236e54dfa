/** The cyclic port allocator: internal/concurrency/port.go. Whether a port can be bound is a
    parameter of each call. */
module Ports {
  import opened Options
  import opened Sets

  /** A manager for ports [base, base + limit). A limit below one still hands out the base port:
      the cursor never leaves it. */
  datatype PortState = PortState(base: int, limit: int, next: int, taken: set<int>) {

    function Span(): (n: nat)
      ensures n >= 1
    {
      if limit < 1 then 1 else limit
    }

    predicate InRange(port: int) { base <= port < base + Span() }

    ghost predicate Valid() { InRange(next) && forall p | p in taken :: InRange(p) }

    /** The port the cursor moves to after this one. */
    function Successor(port: int): int { if port + 1 >= base + limit then base else port + 1 }

    /** The j-th port in cyclic order from the cursor. */
    function At(j: nat): int { if next + j < base + Span() then next + j else next + j - Span() }

    predicate Free(bindable: int -> bool, port: int) { port !in taken && bindable(port) }

    /** Position, from j on, of the first port that can be handed out. */
    function FirstFree(bindable: int -> bool, j: nat): (r: Option<nat>)
      requires j <= Span()
      ensures r.Some? ==> j <= r.value < Span() && Free(bindable, At(r.value))
      ensures r.Some? ==> forall k | j <= k < r.value :: !Free(bindable, At(k))
      ensures r.None? ==> forall k | j <= k < Span() :: !Free(bindable, At(k))
      decreases Span() - j
    {
      if j == Span() then None else if Free(bindable, At(j)) then Some(j) else FirstFree(bindable, j + 1)
    }

    function Take(port: int): PortState { this.(next := Successor(port), taken := taken + {port}) }

    /** Allocate: the state after it, and the port. */
    function Allocate(bindable: int -> bool): (PortState, Option<int>) {
      match FirstFree(bindable, 0)
      case None => (this, None)
      case Some(j) => (Take(At(j)), Some(At(j)))
    }

    function Release(port: int): PortState { this.(taken := taken - {port}) }
  }

  function NewPorts(base: int, limit: int): PortState { PortState(base, limit, base, {}) }

  // ---- properties --------------------------------------------------------------------

  /** Going round once from the cursor meets every port of the range exactly once. */
  lemma CyclicOrder(s: PortState)
    requires s.Valid()
    ensures forall j: nat | j < s.Span() :: s.InRange(s.At(j))
    ensures forall j: nat, k: nat | j < k < s.Span() :: s.At(j) != s.At(k)
    ensures forall p | s.InRange(p) :: exists j: nat :: j < s.Span() && s.At(j) == p
    ensures forall j: nat | j < s.Span() :: s.Successor(s.At(j)) == s.At(j + 1)
    ensures s.At(s.Span()) == s.next
  {
    forall p | s.InRange(p) ensures exists j: nat :: j < s.Span() && s.At(j) == p {
      var j := if p >= s.next then p - s.next else p - s.next + s.Span();
      assert s.At(j) == p;
    }
  }

  lemma NextAt(s: PortState, j: nat)
    requires s.Valid() && j < s.Span()
    ensures s.Successor(s.At(j)) == s.At(j + 1)
    ensures s.At(j + 1) == s.next <==> j + 1 == s.Span()
  {
  }

  /** Allocate returns a free port, the first in cyclic order from the cursor, and fails exactly
      when no port of the range is free; cursor and taken set stay in range. */
  lemma AllocateCorrect(s: PortState, bindable: int -> bool)
    requires s.Valid()
    ensures var (t, r) := s.Allocate(bindable);
      && t.Valid()
      && (r.None? <==> forall p | s.InRange(p) :: !s.Free(bindable, p))
      && (r.None? ==> t == s)
      && (r.Some? ==> s.InRange(r.value) && s.Free(bindable, r.value) && t.taken == s.taken + {r.value})
  {
    CyclicOrder(s);
    if s.FirstFree(bindable, 0).None? {
      forall p | s.InRange(p) ensures !s.Free(bindable, p) {
        var j: nat :| j < s.Span() && s.At(j) == p;
      }
    }
  }

  /** The port k places behind the cursor, counting round. */
  function Around(s: PortState, k: nat): int { s.base + (s.next - s.base + k) % s.Span() }

  lemma AtIsAround(s: PortState, k: nat)
    requires s.Valid() && k <= s.Span()
    ensures s.At(k) == Around(s, k)
  {
    var d, n := s.next - s.base + k, s.Span();
    assert s.At(k) == s.base + (if d < n then d else d - n);
    RoundOnce(d, n);
  }

  lemma RoundOnce(d: nat, n: nat)
    requires d < 2 * n
    ensures d % n == if d < n then d else d - n
  {
    if d >= n {
      assert d == n + (d - n);
    }
  }

  /** Allocate hands out the nearest port from the cursor on that nobody holds and that can be bound,
      and moves the cursor behind it. */
  lemma NearestPort(s: PortState, bindable: int -> bool) returns (j: nat)
    requires s.Valid() && s.Allocate(bindable).1.Some?
    ensures j < s.Span() && s.Allocate(bindable).1.value == Around(s, j)
    ensures s.Allocate(bindable).0.next == Around(s, j + 1)
    ensures forall k: nat | k < j :: Around(s, k) in s.taken || !bindable(Around(s, k))
  {
    j := s.FirstFree(bindable, 0).value;
    AtIsAround(s, j);
    AtIsAround(s, j + 1);
    NextAt(s, j);
    forall k: nat | k < j ensures Around(s, k) in s.taken || !bindable(Around(s, k)) {
      AtIsAround(s, k);
    }
  }

  function Interval(lo: int, n: nat): (r: set<int>)
    ensures |r| == n && forall p :: p in r <==> lo <= p < lo + n
  {
    if n == 0 then {} else Interval(lo, n - 1) + {lo + n - 1}
  }

  function Range(s: PortState): set<int> { Interval(s.base, s.Span()) }

  /** Ports nobody holds and that cannot be bound either. */
  function Blocked(s: PortState, bindable: int -> bool): set<int> {
    set p | p in Range(s) && p !in s.taken && !bindable(p)
  }

  /** With nothing handed out, the blocked ports are all that cannot be bound; later there are fewer. */
  lemma FewerBlocked(s: PortState, bindable: int -> bool)
    ensures |Blocked(s, bindable)| <= |Blocked(NewPorts(s.base, s.limit), bindable)|
  {
    var none := NewPorts(s.base, s.limit);
    assert Range(s) == Range(none);
    forall p | p in Blocked(s, bindable) ensures p in Blocked(none, bindable) {
    }
    SubsetSize(Blocked(s, bindable), Blocked(none, bindable));
  }

  /** There is a port to hand out as long as the taken and the blocked ones do not fill the range. */
  lemma RoomToAllocate(s: PortState, bindable: int -> bool)
    requires s.Valid() && |s.taken| + |Blocked(s, bindable)| < s.Span()
    ensures s.Allocate(bindable).1.Some?
  {
    AllocateCorrect(s, bindable);
    var unusable := s.taken + Blocked(s, bindable);
    SubsetSize(Range(s), unusable + (Range(s) - unusable));
    var p :| p in Range(s) - unusable;
    assert s.Free(bindable, p);
  }

  // ---- the manager -------------------------------------------------------------------

  datatype ReserveError = OutOfRange | AlreadyAllocated

  class PortManager {
    const base: int
    const limit: int
    var taken: set<int>
    var next: int

    ghost function State(): PortState
      reads this
    {
      PortState(base, limit, next, taken)
    }

    constructor (base: int, limit: int)
      ensures State() == NewPorts(base, limit) && State().Valid()
    {
      this.base, this.limit := base, limit;
      taken, next := {}, base;
    }

    /** visited is every port the cursor passed, in order: the range from the old cursor on, no
        port twice. */
    method Allocate(bindable: int -> bool) returns (r: Option<int>, ghost visited: seq<int>)
      requires State().Valid()
      modifies this
      ensures (State(), r) == old(State()).Allocate(bindable)
      ensures State().Valid()
      ensures 1 <= |visited| <= old(State()).Span()
      ensures forall j | 0 <= j < |visited| :: visited[j] == old(State()).At(j)
      ensures r.Some? ==> visited[|visited| - 1] == r.value
    {
      ghost var was := State();
      AllocateCorrect(was, bindable);
      var start := next;
      visited := [];
      while true
        invariant |visited| < was.Span()
        invariant next == was.At(|visited|) && taken == was.taken
        invariant forall j | 0 <= j < |visited| :: visited[j] == was.At(j)
        invariant was.FirstFree(bindable, 0) == was.FirstFree(bindable, |visited|)
        decreases was.Span() - |visited|
      {
        NextAt(was, |visited|);
        var port := next;
        next := next + 1;
        if next >= base + limit {
          next := base;
        }
        assert next == was.At(|visited| + 1);
        visited := visited + [port];
        if port in taken || !bindable(port) {
          if next == start {
            return None, visited;
          }
        } else {
          taken := taken + {port};
          return Some(port), visited;
        }
      }
    }

    method Release(port: int)
      requires State().Valid()
      modifies this
      ensures State() == old(State()).Release(port) && State().Valid()
    {
      taken := taken - {port};
    }

    method Reserve(port: int) returns (error: Option<ReserveError>)
      requires State().Valid()
      modifies this
      ensures State().Valid()
      ensures error == if !(base <= port < base + limit) then Some(OutOfRange)
                       else if port in old(taken) then Some(AlreadyAllocated) else None
      ensures State() == if error.Some? then old(State()) else old(State()).(taken := old(taken) + {port})
    {
      if port < base || port >= base + limit {
        return Some(OutOfRange);
      }
      if port in taken {
        return Some(AlreadyAllocated);
      }
      taken := taken + {port};
      return None;
    }
  }
}
