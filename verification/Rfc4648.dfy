/** RFC 4648 in its own terms: the alphabets of its tables 1 and 2, groups of 24 bits, and the final
    group of section 4, filled up with zero bits. Base64 is proved to be that. */
module Rfc4648 {
  import opened Base64
  import opened Bytes
  import opened Detector
  import opened Options

  /** Table 1 in rows of sixteen, and the last row of table 2. */
  const ALPHABET: seq<string> := ["ABCDEFGHIJKLMNOP", "QRSTUVWXYZabcdef", "ghijklmnopqrstuv", "wxyz0123456789+/"]
  const URL_SAFE_ROW: string := "wxyz0123456789-_"

  function Row(e: Encoding, row: nat): string
    requires row < 4
  {
    if row == 3 && e.UrlSafe() then URL_SAFE_ROW else ALPHABET[row]
  }

  lemma FirstRows(e: Encoding, row: nat, column: nat)
    requires row < 3 && column < 16
    ensures |Row(e, row)| == 16 && Row(e, row)[column] as int == e.Letter(row * 16 + column)
  {
    if row == 0 {
    } else if row == 1 {
    }
  }

  lemma LastRow(e: Encoding, column: nat)
    requires column < 16
    ensures |Row(e, 3)| == 16 && Row(e, 3)[column] as int == e.Letter(48 + column)
  {
    if e.UrlSafe() {
    }
  }

  lemma RowsFull(e: Encoding, row: nat)
    requires row < 4
    ensures |Row(e, row)| == 16
  {
  }

  /** The character for six bits. */
  function CharOf(e: Encoding, v: sextet): char { RowsFull(e, v / 16); Row(e, v / 16)[v % 16] }

  lemma AlphabetIs(e: Encoding, v: sextet)
    ensures e.Letter(v) == CharOf(e, v) as int
  {
    if v < 48 {
      FirstRows(e, v / 16, v % 16);
    } else {
      LastRow(e, v - 48);
    }
  }

  /** The text writes these groups of six bits. */
  ghost predicate Writes(e: Encoding, text: bytes, groups: seq<sextet>) {
    |text| == |groups| && forall i | 0 <= i < |text| :: text[i] == CharOf(e, groups[i]) as int
  }

  lemma LettersWrite(e: Encoding, groups: seq<sextet>)
    ensures Writes(e, Letters(e, groups), groups)
  {
    forall i | 0 <= i < |groups| ensures Letters(e, groups)[i] == CharOf(e, groups[i]) as int {
      AlphabetIs(e, groups[i]);
    }
  }

  /** Three bytes are 24 bits, written as four characters; the rest follows. */
  lemma WholeGroup(e: Encoding, b: bytes) returns (p: seq<sextet>)
    requires |b| >= 3
    ensures |p| == 4 && |Encode(e, b)| >= 4 && Writes(e, Encode(e, b)[..4], p)
    ensures 262144 * (p[0] as int) + 4096 * (p[1] as int) + 64 * (p[2] as int) + p[3] as int
      == 65536 * (b[0] as int) + 256 * (b[1] as int) + b[2] as int
    ensures Encode(e, b)[4..] == Encode(e, b[3..])
  {
    EncodeStep(e, b);
    p := Sextets(b)[..4];
    LettersWrite(e, p);
    assert Encode(e, b)[..4] == Letters(e, p);
  }

  /** One byte left is two characters with four zero bits, two are three with two; '=' fills up the
      group where the encoding is padded. Nothing is nothing. */
  lemma LastGroup(e: Encoding, b: bytes) returns (p: seq<sextet>)
    requires |b| < 3
    ensures |p| == (if b == [] then 0 else |b| + 1) <= |Encode(e, b)| && Writes(e, Encode(e, b)[..|p|], p)
    ensures |b| == 1 ==> 64 * (p[0] as int) + p[1] as int == 16 * (b[0] as int)
    ensures |b| == 2 ==>
      4096 * (p[0] as int) + 64 * (p[1] as int) + p[2] as int == 4 * (256 * (b[0] as int) + b[1] as int)
    ensures |Encode(e, b)| == if b != [] && (e == Std || e == Url) then 4 else |p|
    ensures forall c | c in Encode(e, b)[|p|..] :: c == '=' as int
  {
    p := Sextets(b);
    LettersWrite(e, p);
    assert Encode(e, b)[..|p|] == Letters(e, p);
    assert Encode(e, b)[|p|..] == Padding(e, |b|);
  }

  // ---- what the decoder accepts ------------------------------------------------------

  /** The number by which bits that no byte uses can change the last character. */
  function Spare(n: nat): int { if n == 1 then 16 else 4 }

  /** The text is the encoding of b, except that the bits left over in the last character of a short
      final group are ignored. */
  ghost predicate Spells(e: Encoding, t: bytes, b: bytes) {
    if |b| >= 3 then |t| >= 4 && t[..4] == Letters(e, Sextets(b)[..4]) && Spells(e, t[4..], b[3..])
    else if b == [] then t == []
    else exists v: sextet :: v / Spare(|b|) == Sextets(b)[|b|] / Spare(|b|) && t == WithLast(e, b, v)
  }

  /** The encoding of one or two bytes with v in the place of its last six bits. */
  function WithLast(e: Encoding, b: bytes, v: sextet): (r: bytes)
    requires 1 <= |b| <= 2
    ensures |r| == |Encode(e, b)|
  {
    Encode(e, b)[|b| := e.Letter(v)]
  }

  lemma LetterOfValue(e: Encoding, c: byte)
    requires e.Value(c) >= 0
    ensures e.Letter(e.Value(c)) == c
  {
  }

  lemma FirstBits(v0: sextet, v1: sextet, b0: byte)
    ensures b0 == v0 * 4 + v1 / 16 <==> v0 == b0 / 4 && v1 / 16 == b0 % 4
  {
  }

  /** The two forms a final group can have. */
  lemma TailForms(e: Encoding, t: bytes)
    requires t != [] && !FullGroup(e, t)
    ensures DecodeClean(e, t).Some? <==> OneByteForm(e, t) || TwoByteForm(e, t)
    ensures OneByteForm(e, t) ==> DecodeClean(e, t) == Some([First(e, t)])
    ensures TwoByteForm(e, t) ==> DecodeClean(e, t) == Some([First(e, t), Second(e, t)])
  {
    if |t| >= 3 {
      assert t[2..][0] == t[2];
    }
  }

  predicate OneByteForm(e: Encoding, t: bytes) {
    |t| >= 2 && e.Value(t[0]) >= 0 && e.Value(t[1]) >= 0 && t[2..] == Padding(e, 1)
  }

  predicate TwoByteForm(e: Encoding, t: bytes) {
    |t| >= 3 && e.Value(t[0]) >= 0 && e.Value(t[1]) >= 0 && e.Value(t[2]) >= 0 && t[3..] == Padding(e, 2)
  }

  function OneByteText(e: Encoding, v0: sextet, v1: sextet): bytes { [e.Letter(v0), e.Letter(v1)] + Padding(e, 1) }

  function TwoByteText(e: Encoding, v0: sextet, v1: sextet, v2: sextet): bytes {
    [e.Letter(v0), e.Letter(v1), e.Letter(v2)] + Padding(e, 2)
  }

  lemma OneByteShape(e: Encoding, b: bytes, v: sextet)
    requires |b| == 1
    ensures WithLast(e, b, v) == OneByteText(e, b[0] / 4, v)
  {
  }

  lemma TwoByteShape(e: Encoding, b: bytes, v: sextet)
    requires |b| == 2
    ensures WithLast(e, b, v) == TwoByteText(e, b[0] / 4, b[0] % 4 * 16 + b[1] / 16, v)
  {
  }

  lemma OneByteDecodes(e: Encoding, v0: sextet, v1: sextet)
    ensures DecodeClean(e, OneByteText(e, v0, v1)) == Some([v0 * 4 + v1 / 16])
  {
    var t := OneByteText(e, v0, v1);
    assert t[0] == e.Letter(v0) && t[1] == e.Letter(v1) && t[2..] == Padding(e, 1);
    assert !FullGroup(e, t) && OneByteForm(e, t);
    TailForms(e, t);
  }

  lemma TwoBytesDecode(e: Encoding, v0: sextet, v1: sextet, v2: sextet)
    ensures DecodeClean(e, TwoByteText(e, v0, v1, v2)) == Some([v0 * 4 + v1 / 16, v1 % 16 * 16 + v2 / 4])
  {
    var t := TwoByteText(e, v0, v1, v2);
    assert t[0] == e.Letter(v0) && t[1] == e.Letter(v1) && t[2] == e.Letter(v2) && t[3..] == Padding(e, 2);
    assert !FullGroup(e, t) && TwoByteForm(e, t);
    TailForms(e, t);
  }

  lemma ShortOne(e: Encoding, t: bytes, b: bytes)
    requires |b| == 1
    ensures DecodeClean(e, t) == Some(b) <==> Spells(e, t, b)
  {
    if Spells(e, t, b) {
      var v: sextet :| v / 16 == Sextets(b)[1] / 16 && t == WithLast(e, b, v);
      OneByteShape(e, b, v);
      FirstBits(b[0] / 4, v, b[0]);
      OneByteDecodes(e, b[0] / 4, v);
      assert b == [b[0]];
    } else if DecodeClean(e, t) == Some(b) {
      ShortGroup(e, t, b);
      TailForms(e, t);
      OneByteRead(e, t);
      var v0, v1 := e.Value(t[0]), e.Value(t[1]);
      FirstBits(v0, v1, b[0]);
      OneByteShape(e, b, v1);
    }
  }

  lemma TwoWritten(e: Encoding, b: bytes, v: sextet)
    requires |b| == 2 && v / 4 == b[1] % 16 * 4 / 4
    ensures DecodeClean(e, WithLast(e, b, v)) == Some(b)
  {
    var v1: sextet := b[0] % 4 * 16 + b[1] / 16;
    TwoByteShape(e, b, v);
    TwoValues(b[0] / 4, v1, v, b);
    TwoBytesDecode(e, b[0] / 4, v1, v);
  }

  lemma TwoRead(e: Encoding, t: bytes, b: bytes) returns (v: sextet)
    requires |b| == 2 && DecodeClean(e, t) == Some(b)
    ensures v / 4 == b[1] % 16 * 4 / 4 && t == WithLast(e, b, v)
  {
    ShortGroup(e, t, b);
    TailForms(e, t);
    TwoByteRead(e, t);
    v := e.Value(t[2]);
    TwoValues(e.Value(t[0]), e.Value(t[1]), v, b);
    TwoByteShape(e, b, v);
  }

  lemma TwoValues(v0: sextet, v1: sextet, v2: sextet, b: bytes)
    requires |b| == 2
    ensures b == [v0 * 4 + v1 / 16, v1 % 16 * 16 + v2 / 4] <==>
      v0 == b[0] / 4 && v1 == b[0] % 4 * 16 + b[1] / 16 && v2 / 4 == b[1] % 16 * 4 / 4
  {
    FirstBits(v0, v1, b[0]);
    SecondBits(v1, v2, b[1]);
    SplitBits(v1, b[0] % 4, b[1] / 16, 16);
  }

  lemma ShortTwo(e: Encoding, t: bytes, b: bytes)
    requires |b| == 2
    ensures DecodeClean(e, t) == Some(b) <==> Spells(e, t, b)
  {
    assert Sextets(b)[2] == b[1] % 16 * 4;
    if Spells(e, t, b) {
      var v: sextet :| v / 4 == Sextets(b)[2] / 4 && t == WithLast(e, b, v);
      TwoWritten(e, b, v);
    } else if DecodeClean(e, t) == Some(b) {
      var v := TwoRead(e, t, b);
    }
  }

  lemma ShortGroup(e: Encoding, t: bytes, b: bytes)
    requires DecodeClean(e, t) == Some(b) && 1 <= |b| <= 2
    ensures t != [] && !FullGroup(e, t)
  {
  }

  lemma OneByteRead(e: Encoding, t: bytes)
    requires OneByteForm(e, t)
    ensures t == OneByteText(e, e.Value(t[0]), e.Value(t[1]))
  {
    LetterOfValue(e, t[0]);
    LetterOfValue(e, t[1]);
    assert t == [t[0], t[1]] + t[2..];
  }

  lemma TwoByteRead(e: Encoding, t: bytes)
    requires TwoByteForm(e, t)
    ensures t == TwoByteText(e, e.Value(t[0]), e.Value(t[1]), e.Value(t[2]))
  {
    LetterOfValue(e, t[0]);
    LetterOfValue(e, t[1]);
    LetterOfValue(e, t[2]);
    assert t == [t[0], t[1], t[2]] + t[3..];
  }

  function Four(b0: byte, b1: byte, b2: byte): seq<sextet> {
    [b0 / 4, b0 % 4 * 16 + b1 / 16, b1 % 16 * 4 + b2 / 64, b2 % 64]
  }

  lemma FourSextets(b: bytes)
    requires |b| >= 3
    ensures |Sextets(b)| >= 4 && Sextets(b)[..4] == Four(b[0], b[1], b[2])
  {
  }

  lemma SecondBits(v1: sextet, v2: sextet, b1: byte)
    ensures b1 == v1 % 16 * 16 + v2 / 4 <==> v1 % 16 == b1 / 16 && v2 / 4 == b1 % 16
  {
  }

  lemma ThirdBits(v2: sextet, v3: sextet, b2: byte)
    ensures b2 == v2 % 4 * 64 + v3 <==> v2 % 4 == b2 / 64 && v3 == b2 % 64
  {
  }

  lemma SplitBits(v: sextet, high: int, low: int, unit: int)
    requires (unit == 16 || unit == 4) && 0 <= low < unit
    ensures v == high * unit + low <==> v / unit == high && v % unit == low
  {
  }

  lemma FourBits(v0: sextet, v1: sextet, v2: sextet, v3: sextet, b0: byte, b1: byte, b2: byte)
    ensures b0 == v0 * 4 + v1 / 16 && b1 == v1 % 16 * 16 + v2 / 4 && b2 == v2 % 4 * 64 + v3 <==>
      [v0, v1, v2, v3] == Four(b0, b1, b2)
  {
    FirstBits(v0, v1, b0);
    SecondBits(v1, v2, b1);
    ThirdBits(v2, v3, b2);
    SplitBits(v1, b0 % 4, b1 / 16, 16);
    SplitBits(v2, b1 % 16, b2 / 64, 4);
  }

  lemma ReadFour(e: Encoding, t: bytes, four: seq<sextet>)
    requires FullGroup(e, t) && |four| == 4
    ensures t[..4] == Letters(e, four) <==>
      [e.Value(t[0]), e.Value(t[1]), e.Value(t[2]), e.Value(t[3])] == four
  {
    LetterOfValue(e, t[0]);
    LetterOfValue(e, t[1]);
    LetterOfValue(e, t[2]);
    LetterOfValue(e, t[3]);
    assert t[..4] == [t[0], t[1], t[2], t[3]];
    assert Letters(e, four) == [e.Letter(four[0]), e.Letter(four[1]), e.Letter(four[2]), e.Letter(four[3])];
  }

  lemma FourBytes(v0: sextet, v1: sextet, v2: sextet, v3: sextet, b: bytes)
    requires |b| >= 3
    ensures [v0 * 4 + v1 / 16, v1 % 16 * 16 + v2 / 4, v2 % 4 * 64 + v3] == b[..3] <==>
      [v0, v1, v2, v3] == Four(b[0], b[1], b[2])
  {
    FourBits(v0, v1, v2, v3, b[0], b[1], b[2]);
    assert b[..3] == [b[0], b[1], b[2]];
  }

  lemma GroupBytes(e: Encoding, t: bytes, v0: sextet, v1: sextet, v2: sextet, v3: sextet)
    requires FullGroup(e, t) && v0 == e.Value(t[0]) && v1 == e.Value(t[1])
    requires v2 == e.Value(t[2]) && v3 == e.Value(t[3])
    ensures [First(e, t), Second(e, t), Third(e, t)] == [v0 * 4 + v1 / 16, v1 % 16 * 16 + v2 / 4, v2 % 4 * 64 + v3]
  {
  }

  lemma GroupIff(e: Encoding, t: bytes, b: bytes)
    requires |b| >= 3 && FullGroup(e, t)
    ensures t[..4] == Letters(e, Sextets(b)[..4]) <==> [First(e, t), Second(e, t), Third(e, t)] == b[..3]
  {
    var v0, v1, v2, v3 := e.Value(t[0]), e.Value(t[1]), e.Value(t[2]), e.Value(t[3]);
    FourSextets(b);
    ReadFour(e, t, Four(b[0], b[1], b[2]));
    FourBytes(v0, v1, v2, v3, b);
    GroupBytes(e, t, v0, v1, v2, v3);
  }

  lemma NoGroup(e: Encoding, t: bytes, b: bytes)
    requires |b| >= 3 && !FullGroup(e, t)
    ensures DecodeClean(e, t) != Some(b)
    ensures |t| >= 4 ==> t[..4] != Letters(e, Sextets(b)[..4])
  {
    if |t| >= 4 {
      FourSextets(b);
      var l := Letters(e, Sextets(b)[..4]);
      assert e.Value(l[0]) >= 0 && e.Value(l[1]) >= 0 && e.Value(l[2]) >= 0 && e.Value(l[3]) >= 0;
      assert t[0] == t[..4][0] && t[1] == t[..4][1] && t[2] == t[..4][2] && t[3] == t[..4][3];
    }
  }

  lemma GroupDecodes(e: Encoding, t: bytes, b: bytes)
    requires |b| >= 3 && FullGroup(e, t)
    ensures DecodeClean(e, t) == Some(b) <==>
      [First(e, t), Second(e, t), Third(e, t)] == b[..3] && DecodeClean(e, t[4..]) == Some(b[3..])
  {
    assert b == b[..3] + b[3..];
  }

  lemma {:induction false} CleanIff(e: Encoding, t: bytes, b: bytes)
    ensures DecodeClean(e, t) == Some(b) <==> Spells(e, t, b)
    decreases |b|
  {
    if |b| >= 3 {
      if FullGroup(e, t) {
        GroupIff(e, t, b);
        GroupDecodes(e, t, b);
        CleanIff(e, t[4..], b[3..]);
      } else {
        NoGroup(e, t, b);
      }
    } else if |b| == 2 {
      ShortTwo(e, t, b);
    } else if |b| == 1 {
      ShortOne(e, t, b);
    }
  }

  /** A text decodes to b exactly when, line breaks aside, it is the encoding of b up to those bits. */
  lemma DecodeIff(e: Encoding, s: bytes, b: bytes)
    ensures Decode(e, s) == Some(b) <==> Spells(e, StripBreaks(s), b)
  {
    CleanIff(e, StripBreaks(s), b);
  }

  // ---- what else may be in the text --------------------------------------------------

  lemma StripBreak(s: bytes, c: byte)
    requires IsLineBreak(c)
    ensures StripBreaks(s + [c]) == StripBreaks(s)
  {
    StripAppend(s, [c]);
    assert StripBreaks([c]) == StripBreaks([c][1..]) == [];
  }

  /** CR and LF count for nothing wherever they are. */
  lemma BreaksIgnored(e: Encoding, s: bytes, c: byte, t: bytes)
    requires c == '\r' as int || c == '\n' as int
    ensures Decode(e, s + [c] + t) == Decode(e, s + t)
  {
    StripAppend(s + [c], t);
    StripBreak(s, c);
    StripAppend(s, t);
  }

  /** A length that is possible, characters of the alphabet, and '=' in the last two places only. */
  predicate Shaped(e: Encoding, t: bytes) {
    |t| % 4 != 1 && forall i | 0 <= i < |t| :: InAlphabet(e, t[i]) && (t[i] == EQUALS ==> i >= |t| - 2)
  }

  lemma GroupShaped(e: Encoding, t: bytes)
    requires FullGroup(e, t) && Shaped(e, t[4..])
    ensures Shaped(e, t)
  {
    forall i | 0 <= i < |t| ensures InAlphabet(e, t[i]) && (t[i] == EQUALS ==> i >= |t| - 2) {
      if i >= 4 {
        assert t[i] == t[4..][i - 4];
      }
    }
  }

  lemma TailShaped(e: Encoding, t: bytes)
    requires OneByteForm(e, t) || TwoByteForm(e, t)
    ensures Shaped(e, t)
  {
    var n := if OneByteForm(e, t) then 2 else 3;
    assert forall i | n <= i < |t| :: t[i] == t[n..][i - n];
  }

  lemma {:induction false} CleanShaped(e: Encoding, t: bytes)
    requires DecodeClean(e, t).Some?
    ensures Shaped(e, t)
  {
    if FullGroup(e, t) {
      CleanShaped(e, t[4..]);
      GroupShaped(e, t);
    } else if t != [] {
      TailForms(e, t);
      TailShaped(e, t);
    }
  }

  lemma {:induction false} StripKeeps(s: bytes, c: byte)
    requires c in s && !IsLineBreak(c)
    ensures c in StripBreaks(s)
  {
    if s[0] != c {
      assert s == [s[0]] + s[1..];
      StripKeeps(s[1..], c);
    }
  }

  /** Nothing else is accepted beside the 64 characters and, where the encoding is padded, '='. */
  lemma OnlyAlphabet(e: Encoding, s: bytes, c: byte)
    requires Decode(e, s).Some? && c in s
    ensures c == '\r' as int || c == '\n' as int || (c == '=' as int && (e == Std || e == Url))
      || exists v: sextet :: c == CharOf(e, v) as int
  {
    if !IsLineBreak(c) {
      StripKeeps(s, c);
      CleanShaped(e, StripBreaks(s));
      if e.Value(c) >= 0 {
        LetterOfValue(e, c);
        AlphabetIs(e, e.Value(c));
      }
    }
  }

  /** The heuristic that guards userinfo never turns a text down that decodes to something, line breaks
      apart: what it calls implausible, none of the four decoders accepts. */
  lemma DecodablePlausible(s: bytes)
    requires s != [] && DecodeAny(s).Some? && forall i | 0 <= i < |s| :: !IsLineBreak(s[i])
    ensures Plausible(s)
  {
    var e :| e in TRIAL_ORDER && Decode(e, s) == DecodeAny(s);
    StripNothing(s);
    CleanShaped(e, s);
    forall i | 0 <= i < |s| ensures PlausibleAt(s, i) {
      ValuePlausible(e, s[i]);
    }
  }

  lemma ValuePlausible(e: Encoding, c: byte)
    ensures e.Value(c) >= 0 ==> IsBase64Char(c) || c == MINUS || c == UNDERSCORE
  {
  }

  // ---- an example --------------------------------------------------------------------

  lemma FourDecode(b: bytes, groups: seq<sextet>, text: bytes)
    requires groups == Sextets(b) && text == Letters(Std, groups) + Padding(Std, |b|)
    ensures DecodeAny(text) == Some(b)
  {
    DecodeAnyEncode(Std, b);
  }

  lemma ManDecodes()
    ensures DecodeAny(Ascii("TWFu")) == Some(Ascii("Man"))
  {
    var b := Ascii("Man");
    assert b == [77, 97, 110] && b[3..] == [];
    FourDecode(b, [19, 22, 5, 46], Ascii("TWFu"));
  }
}
