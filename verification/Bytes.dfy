/** Go strings as byte sequences, with the functions of package strings the daemon relies on. */
module Bytes {
  type byte = x: int | 0 <= x < 256
  type bytes = seq<byte>

  const TAB: byte := 9
  const NEWLINE: byte := 10
  const RETURN: byte := 13
  const SPACE: byte := 32
  const HASH: byte := 35
  const PERCENT: byte := 37
  const PLUS: byte := 43
  const MINUS: byte := 45
  const SLASH: byte := 47
  const COLON: byte := 58
  const EQUALS: byte := 61
  const AT: byte := 64
  const OPEN_BRACKET: byte := 91
  const CLOSE_BRACKET: byte := 93
  const UNDERSCORE: byte := 95

  predicate IsDigit(c: byte) { 48 <= c <= 57 }
  predicate IsUpper(c: byte) { 65 <= c <= 90 }
  predicate IsLower(c: byte) { 97 <= c <= 122 }

  /** The bytes of an ASCII text. */
  function Ascii(text: string): (r: bytes)
    requires forall i | 0 <= i < |text| :: text[i] as int < 128
    ensures |r| == |text| && forall i | 0 <= i < |r| :: r[i] == text[i] as int
  {
    if text == "" then [] else [text[0] as int] + Ascii(text[1..])
  }

  /** strings.Index for one byte. */
  function IndexOf(s: bytes, c: byte): (r: int)
    ensures -1 <= r < |s|
    ensures r >= 0 ==> s[r] == c && c !in s[..r]
    ensures r == -1 ==> c !in s
  {
    if s == [] then -1
    else if s[0] == c then 0
    else
      var r := IndexOf(s[1..], c);
      if r < 0 then assert s == [s[0]] + s[1..]; -1
      else assert s[..r + 1] == [s[0]] + s[1..][..r]; r + 1
  }

  /** strings.LastIndex for one byte. */
  function LastIndexOf(s: bytes, c: byte): (r: int)
    ensures -1 <= r < |s|
    ensures r >= 0 ==> s[r] == c && c !in s[r + 1..]
    ensures r == -1 ==> c !in s
  {
    if s == [] then -1
    else if s[|s| - 1] == c then |s| - 1
    else
      var r := LastIndexOf(s[..|s| - 1], c);
      assert s == s[..|s| - 1] + [s[|s| - 1]];
      if r >= 0 then assert s[r + 1..] == s[..|s| - 1][r + 1..] + [s[|s| - 1]]; r else -1
  }

  lemma {:induction false} LastIndexSplits(a: bytes, c: byte, b: bytes)
    requires c !in b
    ensures LastIndexOf(a + [c] + b, c) == |a|
  {
    var s := a + [c] + b;
    if b == [] {
      assert s[|s| - 1] == c;
    } else {
      assert s[..|s| - 1] == a + [c] + b[..|b| - 1];
      assert s[|s| - 1] == b[|b| - 1];
      LastIndexSplits(a, c, b[..|b| - 1]);
    }
  }

  lemma {:induction false} IndexSplits(a: bytes, c: byte, b: bytes)
    requires c !in a
    ensures IndexOf(a + [c] + b, c) == |a|
  {
    if a != [] {
      assert (a + [c] + b)[1..] == a[1..] + [c] + b;
      IndexSplits(a[1..], c, b);
    }
  }

  /** strings.Contains. */
  predicate Contains(s: bytes, a: bytes) {
    a <= s || (s != [] && Contains(s[1..], a))
  }

  lemma {:induction false} ContainsInside(x: bytes, a: bytes, y: bytes)
    ensures Contains(x + a + y, a)
  {
    if x == [] {
      assert x + a + y == a + y;
    } else {
      assert (x + a + y)[1..] == x[1..] + a + y;
      ContainsInside(x[1..], a, y);
    }
  }

  lemma {:induction false} ContainsNeeds(s: bytes, a: bytes, c: byte)
    requires c in a && Contains(s, a)
    ensures c in s
  {
    if !(a <= s) {
      ContainsNeeds(s[1..], a, c);
    } else {
      assert s == a + s[|a|..];
    }
  }

  // ---- white space -------------------------------------------------------------------

  predicate IsAsciiSpace(c: byte) { 9 <= c <= 13 || c == SPACE }

  /** The white-space code points of unicode.IsSpace that take two bytes of UTF-8, and those
      that take three. */
  predicate IsSpacePair(a: byte, b: byte) { a == 0xC2 && (b == 0x85 || b == 0xA0) }

  predicate IsSpaceTriple(a: byte, b: byte, c: byte) {
    || (a == 0xE1 && b == 0x9A && c == 0x80)
    || (a == 0xE2 && b == 0x80 && (0x80 <= c <= 0x8A || c == 0xA8 || c == 0xA9 || c == 0xAF))
    || (a == 0xE2 && b == 0x81 && c == 0x9F)
    || (a == 0xE3 && b == 0x80 && c == 0x80)
  }

  /** Width of the white-space character s starts with; 0 when there is none. */
  function LeadingSpace(s: bytes): (n: nat)
    ensures n <= |s| && n <= 3
  {
    if |s| >= 1 && IsAsciiSpace(s[0]) then 1
    else if |s| >= 2 && IsSpacePair(s[0], s[1]) then 2
    else if |s| >= 3 && IsSpaceTriple(s[0], s[1], s[2]) then 3
    else 0
  }

  function TrailingSpace(s: bytes): (n: nat)
    ensures n <= |s| && n <= 3
  {
    var k := |s|;
    if k >= 1 && IsAsciiSpace(s[k - 1]) then 1
    else if k >= 2 && IsSpacePair(s[k - 2], s[k - 1]) then 2
    else if k >= 3 && IsSpaceTriple(s[k - 3], s[k - 2], s[k - 1]) then 3
    else 0
  }

  /** The code points of unicode.IsSpace with two and three bytes in UTF-8. */
  lemma SpaceCodePoints(a: byte, b: byte, c: byte)
    ensures IsSpacePair(a, b) <==>
      0xC2 <= a <= 0xDF && 0x80 <= b <= 0xBF && (a - 0xC0) * 0x40 + (b - 0x80) in {0x85, 0xA0}
    ensures var p := (a - 0xE0) * 0x1000 + (b - 0x80) * 0x40 + (c - 0x80);
      IsSpaceTriple(a, b, c) <==>
      (0xE1 <= a <= 0xEF && 0x80 <= b <= 0xBF && 0x80 <= c <= 0xBF
       && (0x2000 <= p <= 0x200A || p in {0x1680, 0x2028, 0x2029, 0x202F, 0x205F, 0x3000}))
  {
  }

  function TrimLeft(s: bytes): (r: bytes)
    ensures LeadingSpace(r) == 0
  {
    if LeadingSpace(s) == 0 then s else TrimLeft(s[LeadingSpace(s)..])
  }

  function TrimRight(s: bytes): (r: bytes)
    ensures TrailingSpace(r) == 0
    ensures r <= s
  {
    if TrailingSpace(s) == 0 then s else TrimRight(s[..|s| - TrailingSpace(s)])
  }

  /** strings.TrimSpace. */
  function Trim(s: bytes): bytes { TrimRight(TrimLeft(s)) }

  predicate Trimmed(s: bytes) { LeadingSpace(s) == 0 && TrailingSpace(s) == 0 }

  lemma LeadingSpaceOfPrefix(s: bytes, n: nat)
    requires n <= |s| && LeadingSpace(s[..n]) > 0
    ensures LeadingSpace(s) == LeadingSpace(s[..n])
  {
  }

  lemma DropAppend(a: bytes, b: bytes, n: nat)
    requires n <= |a|
    ensures (a + b)[n..] == a[n..] + b
  {
  }

  lemma TrimIsTrimmed(s: bytes)
    ensures Trimmed(Trim(s))
  {
  }

  lemma {:induction false} TrimLeftSkips(l: bytes, u: bytes)
    requires TrimLeft(l) == []
    ensures TrimLeft(l + u) == TrimLeft(u)
  {
    if l == [] {
      assert l + u == u;
    } else {
      var n := LeadingSpace(l);
      assert (l + u)[..|l|] == l;
      LeadingSpaceOfPrefix(l + u, |l|);
      assert (l + u)[n..] == l[n..] + u;
      TrimLeftSkips(l[n..], u);
    }
  }

  /** A text of white space only: trimming from the left already empties it. */
  lemma {:induction false} BlankFromLeft(s: bytes)
    requires Trim(s) == []
    ensures TrimLeft(s) == []
  {
    if TrimLeft(s) != [] {
      BlankFromRight(TrimLeft(s));
    }
  }

  lemma {:induction false} BlankFromRight(m: bytes)
    requires m != [] && TrimRight(m) == []
    ensures LeadingSpace(m) > 0
  {
    var n := |m| - TrailingSpace(m);
    if n == 0 {
      assert LeadingSpace(m) == |m|;
    } else {
      BlankFromRight(m[..n]);
      LeadingSpaceOfPrefix(m, n);
    }
  }

  /** A newline after a trimmed text is all that trimming takes away again. */
  lemma TrimDropsNewline(s: bytes)
    requires Trimmed(s)
    ensures Trim(s + [NEWLINE]) == s
  {
    var t := s + [NEWLINE];
    if s == [] {
      assert TrimLeft(t) == TrimLeft(t[1..]);
    } else {
      assert LeadingSpace(t) == 0;
      assert t[..|t| - 1] == s;
      assert TrimRight(t) == TrimRight(s);
    }
  }

  /** ASCII white space at either end makes no difference to the trimmed text. */
  lemma TrimDrops(c: byte, s: bytes)
    requires c in ['\t' as int, '\n' as int, 11, 12, '\r' as int, ' ' as int]
    ensures Trim([c] + s) == Trim(s)
    ensures Trim(s + [c]) == Trim(s)
  {
    assert ([c] + s)[1..] == s;
    if TrimLeft(s) == [] {
      TrimLeftSkips(s, [c]);
      assert TrimLeft([c]) == TrimLeft([c][1..]);
    } else {
      TrimLeftKeepsSpace(s, c);
      var m := TrimLeft(s);
      assert (m + [c])[..|m|] == m;
    }
  }

  lemma {:induction false} TrimLeftKeepsSpace(s: bytes, c: byte)
    requires TrimLeft(s) != [] && IsAsciiSpace(c)
    ensures TrimLeft(s + [c]) == TrimLeft(s) + [c]
  {
    var n := LeadingSpace(s);
    assert (s + [c])[..|s|] == s;
    if n > 0 {
      LeadingSpaceOfPrefix(s + [c], |s|);
      DropAppend(s, [c], n);
      TrimLeftKeepsSpace(s[n..], c);
    } else {
      assert LeadingSpace(s + [c]) == 0;
    }
  }

  // ---- lines -------------------------------------------------------------------------

  /** strings.Split(s, "\n"). */
  function Split(s: bytes): (r: seq<bytes>)
    ensures |r| > 0
  {
    if s == [] then [[]]
    else if s[0] == NEWLINE then [[]] + Split(s[1..])
    else var r := Split(s[1..]); [[s[0]] + r[0]] + r[1..]
  }

  lemma {:induction false} SplitAppend(a: bytes, b: bytes)
    ensures Split(a + [NEWLINE] + b) == Split(a) + Split(b)
  {
    if a == [] {
      assert (a + [NEWLINE] + b)[1..] == b;
    } else {
      assert (a + [NEWLINE] + b)[1..] == a[1..] + [NEWLINE] + b;
      SplitAppend(a[1..], b);
    }
  }

  lemma {:induction false} SplitOneLine(s: bytes)
    requires NEWLINE !in s
    ensures Split(s) == [s]
  {
    if s != [] {
      SplitOneLine(s[1..]);
      assert [s[0]] + s[1..] == s;
    }
  }

  lemma {:induction false} SplitHasNoNewline(s: bytes)
    ensures forall line | line in Split(s) :: NEWLINE !in line
  {
    if s != [] {
      SplitHasNoNewline(s[1..]);
    }
  }

  /** The lines, each ended by a newline. */
  function JoinLines(lines: seq<bytes>): bytes {
    if lines == [] then [] else lines[0] + [NEWLINE] + JoinLines(lines[1..])
  }

  lemma {:induction false} SplitJoinLines(lines: seq<bytes>)
    requires forall line | line in lines :: NEWLINE !in line
    ensures Split(JoinLines(lines)) == lines + [[]]
  {
    if lines != [] {
      SplitAppend(lines[0], JoinLines(lines[1..]));
      SplitOneLine(lines[0]);
      SplitJoinLines(lines[1..]);
      assert lines == [lines[0]] + lines[1..];
    }
  }

  lemma {:induction false} JoinLinesEnds(lines: seq<bytes>)
    requires lines != []
    ensures JoinLines(lines) == JoinLines(lines[..|lines| - 1]) + lines[|lines| - 1] + ['\n' as int]
  {
    var rest := lines[1..];
    if rest != [] {
      JoinLinesEnds(rest);
      assert rest[..|rest| - 1] == lines[..|lines| - 1][1..];
    }
  }

  /** Nothing to trim off a text that starts with a lower-case letter and ends with one or a digit. */
  lemma LetterEnds(s: bytes)
    requires s != [] && IsLower(s[0]) && (IsLower(s[|s| - 1]) || IsDigit(s[|s| - 1]))
    ensures LeadingSpace(s) == 0 && TrailingSpace(s) == 0 && Trim(s) == s && s[0] != HASH
  {
  }

  // ---- order -------------------------------------------------------------------------

  /** Go's <= on strings: bytewise lexicographic order. */
  predicate TextLeq(a: bytes, b: bytes) {
    a == [] || (b != [] && (a[0] < b[0] || (a[0] == b[0] && TextLeq(a[1..], b[1..]))))
  }

  lemma {:induction false} TextLeqTotal(a: bytes, b: bytes)
    ensures TextLeq(a, b) || TextLeq(b, a)
    ensures TextLeq(a, b) && TextLeq(b, a) ==> a == b
  {
    if a != [] && b != [] && a[0] == b[0] {
      TextLeqTotal(a[1..], b[1..]);
      assert a == [a[0]] + a[1..] && b == [b[0]] + b[1..];
    }
  }

  lemma {:induction false} TextLeqTransitive(a: bytes, b: bytes, c: bytes)
    requires TextLeq(a, b) && TextLeq(b, c)
    ensures TextLeq(a, c)
  {
    if a != [] && a[0] == b[0] == c[0] {
      TextLeqTransitive(a[1..], b[1..], c[1..]);
    }
  }

  /** a comes before b as in a dictionary: b goes on where a ends, or at the first byte where they
      differ a has the smaller one. */
  ghost predicate Before(a: bytes, b: bytes) {
    || (|a| < |b| && b[..|a|] == a)
    || exists k | 0 <= k < |a| && k < |b| :: a[k] < b[k] && a[..k] == b[..k]
  }

  lemma BeforeFirst(a: bytes, b: bytes)
    requires a != [] && b != []
    ensures Before(a, b) <==> a[0] < b[0] || (a[0] == b[0] && Before(a[1..], b[1..]))
  {
    var s, t := a[1..], b[1..];
    assert a == [a[0]] + s && b == [b[0]] + t;
    if a[0] < b[0] {
      assert a[..0] == b[..0];
    } else if a[0] == b[0] && Before(s, t) {
      if k :| 0 <= k < |s| && k < |t| && s[k] < t[k] && s[..k] == t[..k] {
        assert a[..k + 1] == [a[0]] + s[..k] && b[..k + 1] == [b[0]] + t[..k];
        assert a[k + 1] < b[k + 1];
      } else {
        assert b[..|a|] == [b[0]] + t[..|s|];
      }
    } else if Before(a, b) {
      FirstDiffers(a, b);
    }
  }

  lemma FirstDiffers(a: bytes, b: bytes)
    requires a != [] && b != [] && Before(a, b)
    ensures a[0] < b[0] || (a[0] == b[0] && Before(a[1..], b[1..]))
  {
    if k :| 0 <= k < |a| && k < |b| && a[k] < b[k] && a[..k] == b[..k] {
      if k > 0 {
        assert a[0] == a[..k][0] && b[0] == b[..k][0];
        assert a[1..][..k - 1] == a[..k][1..] && b[1..][..k - 1] == b[..k][1..];
        assert a[1..][k - 1] < b[1..][k - 1];
      }
    } else {
      assert a[0] == b[..|a|][0];
      assert b[1..][..|a| - 1] == b[..|a|][1..];
    }
  }

  lemma {:induction false} TextLeqIsBefore(a: bytes, b: bytes)
    ensures TextLeq(a, b) <==> a == b || Before(a, b)
  {
    if a != [] && b != [] {
      TextLeqIsBefore(a[1..], b[1..]);
      BeforeFirst(a, b);
      assert a == [a[0]] + a[1..] && b == [b[0]] + b[1..];
    }
  }
}
