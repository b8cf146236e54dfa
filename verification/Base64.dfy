/** The four base64 encodings of RFC 4648 (sections 3.2, 4 and 5) as Go's encoding/base64
    implements them: CR and LF are skipped anywhere, and the bits left over in the last
    character of a short final group are ignored. */
module Base64 {
  import opened Bytes
  import opened Options

  datatype Encoding = Std | RawStd | Url | RawUrl {
    predicate UrlSafe() { Url? || RawUrl? }
    predicate Padded() { Std? || Url? }

    /** Value of an alphabet character, or -1. */
    function Value(c: byte): (v: int)
      ensures -1 <= v < 64
      ensures v >= 0 ==> c != EQUALS && !IsLineBreak(c)
    {
      if IsUpper(c) then c - 65
      else if IsLower(c) then c - 71
      else if IsDigit(c) then c + 4
      else if c == (if UrlSafe() then MINUS else PLUS) then 62
      else if c == (if UrlSafe() then UNDERSCORE else SLASH) then 63
      else -1
    }

    function Letter(v: int): (c: byte)
      requires 0 <= v < 64
      ensures Value(c) == v
    {
      if v < 26 then v + 65
      else if v < 52 then v + 71
      else if v < 62 then v - 4
      else if v == 62 then (if UrlSafe() then MINUS else PLUS)
      else (if UrlSafe() then UNDERSCORE else SLASH)
    }
  }

  predicate IsLineBreak(c: byte) { c == NEWLINE || c == RETURN }

  function StripBreaks(s: bytes): (r: bytes)
    ensures forall c | c in r :: !IsLineBreak(c) && c in s
  {
    if s == [] then []
    else if IsLineBreak(s[0]) then StripBreaks(s[1..])
    else [s[0]] + StripBreaks(s[1..])
  }

  lemma {:induction false} StripNothing(s: bytes)
    requires forall c | c in s :: !IsLineBreak(c)
    ensures StripBreaks(s) == s
  {
    if s != [] {
      StripNothing(s[1..]);
    }
  }

  lemma {:induction false} StripAppend(a: bytes, b: bytes)
    ensures StripBreaks(a + b) == StripBreaks(a) + StripBreaks(b)
  {
    if a == [] {
      assert a + b == b;
    } else {
      assert (a + b)[1..] == a[1..] + b;
      StripAppend(a[1..], b);
    }
  }

  // ---- encoding ----------------------------------------------------------------------

  type sextet = v: int | 0 <= v < 64

  /** The bits of b in groups of six, the last group filled up with zeros. */
  function Sextets(b: bytes): (r: seq<sextet>)
    ensures |r| == |b| / 3 * 4 + (if |b| % 3 == 0 then 0 else |b| % 3 + 1)
  {
    if |b| == 0 then []
    else if |b| == 1 then [b[0] / 4, b[0] % 4 * 16]
    else if |b| == 2 then [b[0] / 4, b[0] % 4 * 16 + b[1] / 16, b[1] % 16 * 4]
    else [b[0] / 4, b[0] % 4 * 16 + b[1] / 16, b[1] % 16 * 4 + b[2] / 64, b[2] % 64] + Sextets(b[3..])
  }

  function Letters(e: Encoding, v: seq<sextet>): (r: bytes)
    ensures |r| == |v| && forall i | 0 <= i < |v| :: r[i] == e.Letter(v[i])
  {
    seq(|v|, i requires 0 <= i < |v| => e.Letter(v[i]))
  }

  function Padding(e: Encoding, n: nat): (r: bytes)
    ensures |r| == if e.Padded() && n % 3 != 0 then 3 - n % 3 else 0
    ensures forall i | 0 <= i < |r| :: r[i] == EQUALS
  {
    if !e.Padded() || n % 3 == 0 then [] else if n % 3 == 1 then [EQUALS, EQUALS] else [EQUALS]
  }

  /** enc.EncodeToString. */
  function Encode(e: Encoding, b: bytes): bytes { Letters(e, Sextets(b)) + Padding(e, |b|) }

  lemma EncodeStep(e: Encoding, b: bytes)
    requires |b| >= 3
    ensures Encode(e, b) == Letters(e, Sextets(b)[..4]) + Encode(e, b[3..])
  {
    SextetsStep(b);
    PartsStep(e, Sextets(b), |b|);
  }

  lemma PartsStep(e: Encoding, v: seq<sextet>, n: nat)
    requires |v| >= 4 && n >= 3
    ensures Letters(e, v) + Padding(e, n) == Letters(e, v[..4]) + (Letters(e, v[4..]) + Padding(e, n - 3))
  {
  }

  lemma SextetsStep(b: bytes)
    requires |b| >= 3
    ensures |Sextets(b)| >= 4 && Sextets(b)[4..] == Sextets(b[3..])
  {
  }

  lemma EncodedLength(e: Encoding, b: bytes)
    ensures |Encode(e, b)| % 4 == if e.Padded() || |b| % 3 == 0 then 0 else |b| % 3 + 1
  {
  }

  // ---- decoding ----------------------------------------------------------------------

  predicate FullGroup(e: Encoding, s: bytes) {
    |s| >= 4 && e.Value(s[0]) >= 0 && e.Value(s[1]) >= 0 && e.Value(s[2]) >= 0 && e.Value(s[3]) >= 0
  }

  /** One byte from two characters, two bytes from three, three from four. */
  function First(e: Encoding, s: bytes): byte
    requires |s| >= 2 && e.Value(s[0]) >= 0 && e.Value(s[1]) >= 0
  {
    e.Value(s[0]) * 4 + e.Value(s[1]) / 16
  }

  function Second(e: Encoding, s: bytes): byte
    requires |s| >= 3 && e.Value(s[1]) >= 0 && e.Value(s[2]) >= 0
  {
    e.Value(s[1]) % 16 * 16 + e.Value(s[2]) / 4
  }

  function Third(e: Encoding, s: bytes): byte
    requires |s| >= 4 && e.Value(s[2]) >= 0 && e.Value(s[3]) >= 0
  {
    e.Value(s[2]) % 4 * 64 + e.Value(s[3])
  }

  /** The final, short group: two or three characters, then what padding demands. */
  function DecodeTail(e: Encoding, s: bytes): Option<bytes> {
    if |s| < 2 || e.Value(s[0]) < 0 || e.Value(s[1]) < 0 then None
    else if (if e.Padded() then s[2..] == [EQUALS, EQUALS] else |s| == 2) then Some([First(e, s)])
    else if |s| < 3 || e.Value(s[2]) < 0 then None
    else if (if e.Padded() then s[3..] == [EQUALS] else |s| == 3) then Some([First(e, s), Second(e, s)])
    else None
  }

  /** Decoding of text free of line breaks. */
  function DecodeClean(e: Encoding, s: bytes): Option<bytes> {
    if s == [] then Some([])
    else if FullGroup(e, s) then
      match DecodeClean(e, s[4..])
      case None => None
      case Some(rest) => Some([First(e, s), Second(e, s), Third(e, s)] + rest)
    else DecodeTail(e, s)
  }

  /** enc.DecodeString. */
  function Decode(e: Encoding, s: bytes): Option<bytes> { DecodeClean(e, StripBreaks(s)) }

  // ---- properties --------------------------------------------------------------------

  /** A character a text of encoding e may hold. */
  predicate InAlphabet(e: Encoding, c: byte) { e.Value(c) >= 0 || (e.Padded() && c == EQUALS) }

  lemma EncodeAlphabet(e: Encoding, b: bytes)
    ensures forall c | c in Encode(e, b) :: InAlphabet(e, c)
  {
  }

  /** Characters carry six bits each: regrouping four of them gives the three bytes back. */
  lemma GroupRoundTrip(e: Encoding, b: bytes)
    requires |b| >= 3
    ensures var s := Encode(e, b);
      FullGroup(e, s) && First(e, s) == b[0] && Second(e, s) == b[1] && Third(e, s) == b[2]
  {
    EncodeStep(e, b);
    var s, v := Encode(e, b), Sextets(b);
    assert forall i | 0 <= i < 4 :: s[i] == e.Letter(v[i]) && e.Value(s[i]) == v[i];
  }

  lemma TailRoundTrip(e: Encoding, b: bytes)
    requires |b| == 1 || |b| == 2
    ensures DecodeTail(e, Encode(e, b)) == Some(b) && !FullGroup(e, Encode(e, b))
  {
    var s, v := Encode(e, b), Sextets(b);
    assert s[|b| + 1..] == Padding(e, |b|);
    assert forall i | 0 <= i < |b| + 1 :: s[i] == e.Letter(v[i]) && e.Value(s[i]) == v[i];
    if |b| == 1 {
      assert First(e, s) == b[0] && b == [b[0]];
    } else {
      assert First(e, s) == b[0] && Second(e, s) == b[1] && b == [b[0], b[1]];
      assert s[2..][0] == s[2];
    }
  }

  lemma DecodeGroup(e: Encoding, s: bytes, rest: bytes)
    requires FullGroup(e, s) && DecodeClean(e, s[4..]) == Some(rest)
    ensures DecodeClean(e, s) == Some([First(e, s), Second(e, s), Third(e, s)] + rest)
  {
  }

  lemma DecodeShort(e: Encoding, s: bytes)
    requires s != [] && !FullGroup(e, s)
    ensures DecodeClean(e, s) == DecodeTail(e, s)
  {
  }

  lemma {:induction false} DecodeCleanEncode(e: Encoding, b: bytes)
    ensures DecodeClean(e, Encode(e, b)) == Some(b)
  {
    var s := Encode(e, b);
    if |b| >= 3 {
      var rest := b[3..];
      GroupRoundTrip(e, b);
      EncodeStep(e, b);
      DecodeCleanEncode(e, rest);
      assert s[4..] == Encode(e, rest);
      DecodeGroup(e, s, rest);
      assert b == [b[0], b[1], b[2]] + rest;
    } else if |b| > 0 {
      TailRoundTrip(e, b);
      DecodeShort(e, s);
    }
  }

  /** Each encoding is undone by its own decoder. */
  lemma DecodeEncode(e: Encoding, b: bytes)
    ensures Decode(e, Encode(e, b)) == Some(b)
  {
    EncodeAlphabet(e, b);
    StripNothing(Encode(e, b));
    DecodeCleanEncode(e, b);
  }

  lemma SameValue(e: Encoding, f: Encoding, c: byte)
    ensures e.Value(c) >= 0 && f.Value(c) >= 0 ==> e.Value(c) == f.Value(c)
  {
  }

  lemma TailsAgree(e: Encoding, f: Encoding, s: bytes)
    requires DecodeTail(e, s).Some?
    ensures !FullGroup(f, s)
    ensures DecodeTail(f, s).Some? ==> DecodeTail(e, s) == DecodeTail(f, s)
  {
    SameValue(e, f, s[0]);
    SameValue(e, f, s[1]);
    if |s| >= 3 {
      SameValue(e, f, s[2]);
      assert s[2..][0] == s[2];
    }
    if |s| >= 4 {
      assert s[2..][1] == s[3] && s[3..][0] == s[3];
    }
  }

  lemma GroupsAgree(e: Encoding, f: Encoding, s: bytes)
    requires FullGroup(e, s) && FullGroup(f, s)
    ensures First(e, s) == First(f, s) && Second(e, s) == Second(f, s) && Third(e, s) == Third(f, s)
  {
    SameValue(e, f, s[0]);
    SameValue(e, f, s[1]);
    SameValue(e, f, s[2]);
    SameValue(e, f, s[3]);
  }

  lemma {:induction false} DecodersAgreeClean(e: Encoding, f: Encoding, s: bytes)
    requires DecodeClean(e, s).Some? && DecodeClean(f, s).Some?
    ensures DecodeClean(e, s) == DecodeClean(f, s)
  {
    if s != [] {
      if FullGroup(e, s) && FullGroup(f, s) {
        GroupsAgree(e, f, s);
        DecodersAgreeClean(e, f, s[4..]);
      } else if !FullGroup(e, s) {
        TailsAgree(e, f, s);
      } else {
        TailsAgree(f, e, s);
      }
    }
  }

  /** Two decoders that both accept a text return the same bytes, whatever the text. */
  lemma DecodersAgree(e: Encoding, f: Encoding, s: bytes)
    requires Decode(e, s).Some? && Decode(f, s).Some?
    ensures Decode(e, s) == Decode(f, s)
  {
    DecodersAgreeClean(e, f, StripBreaks(s));
  }

  lemma {:induction false} RawRejectsPadding(e: Encoding, s: bytes)
    requires !e.Padded() && EQUALS in s
    ensures DecodeClean(e, s).None?
  {
    if FullGroup(e, s) {
      assert s == s[..4] + s[4..];
      RawRejectsPadding(e, s[4..]);
    }
  }

  /** Nothing may follow the padding: accepted text with '=' in it has no accepted extension. */
  lemma {:induction false} NothingAfterPadding(e: Encoding, f: Encoding, s: bytes, more: bytes)
    requires DecodeClean(e, s).Some? && EQUALS in s && more != []
    ensures DecodeClean(f, s + more).None?
  {
    var t := s + more;
    if !f.Padded() {
      RawRejectsPadding(f, t);
    } else if FullGroup(f, t) {
      assert |s| >= 2;
      if |s| < 4 {
        TailLength(e, s);
      } else {
        assert FullGroup(e, s) by { assert s[..4] == t[..4]; GroupBeforePadding(e, f, s); }
        assert s == s[..4] + s[4..];
        assert t[4..] == s[4..] + more;
        NothingAfterPadding(e, f, s[4..], more);
      }
    } else {
      TailTooLong(e, f, s, more);
    }
  }

  lemma TailLength(e: Encoding, s: bytes)
    requires DecodeClean(e, s).Some? && EQUALS in s
    ensures |s| >= 4
  {
  }

  lemma GroupBeforePadding(e: Encoding, f: Encoding, s: bytes)
    requires DecodeClean(e, s).Some? && |s| >= 4 && FullGroup(f, s)
    ensures FullGroup(e, s)
  {
  }

  lemma TailTooLong(e: Encoding, f: Encoding, s: bytes, more: bytes)
    requires DecodeClean(e, s).Some? && EQUALS in s && more != [] && f.Padded() && !FullGroup(f, s + more)
    ensures DecodeClean(f, s + more).None?
  {
  }
}
