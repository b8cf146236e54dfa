/** Recognising links and payloads: pkg/parser/detector.go, and the public-key check of
    pkg/parser/validator.go that shares its base64 handling. */
module Detector {
  import opened Bytes
  import opened Options
  import opened Base64

  // ---- protocol prefixes -------------------------------------------------------------

  datatype Protocol = VMess | VLess | Trojan | Shadowsocks | Hysteria2 | Tuic | WireGuard | Socks5 | Reality

  const SCHEME_END: bytes := [COLON, SLASH, SLASH]

  /** Scheme words in the order DetectProtocol tries them. */
  const VMESS: bytes := [118, 109, 101, 115, 115]
  const VLESS: bytes := [118, 108, 101, 115, 115]
  const TROJAN: bytes := [116, 114, 111, 106, 97, 110]
  const SS: bytes := [115, 115]
  const HYSTERIA2: bytes := [104, 121, 115, 116, 101, 114, 105, 97, 50]
  const HY2: bytes := [104, 121, 50]
  const TUIC: bytes := [116, 117, 105, 99]
  const WIREGUARD: bytes := [119, 105, 114, 101, 103, 117, 97, 114, 100]
  const SOCKS5: bytes := [115, 111, 99, 107, 115, 53]
  const SOCKS4: bytes := [115, 111, 99, 107, 115, 52]
  const SOCKS: bytes := [115, 111, 99, 107, 115]

  predicate HasScheme(s: bytes, word: bytes) { word + SCHEME_END <= s }

  /** The prefix switch, on text already trimmed. */
  function DetectTrimmed(s: bytes): Option<Protocol> {
    if HasScheme(s, VMESS) then Some(VMess)
    else if HasScheme(s, VLESS) then Some(VLess)
    else if HasScheme(s, TROJAN) then Some(Trojan)
    else if HasScheme(s, SS) then Some(Shadowsocks)
    else if HasScheme(s, HYSTERIA2) || HasScheme(s, HY2) then Some(Hysteria2)
    else if HasScheme(s, TUIC) then Some(Tuic)
    else if HasScheme(s, WIREGUARD) then Some(WireGuard)
    else if HasScheme(s, SOCKS5) || HasScheme(s, SOCKS4) || HasScheme(s, SOCKS) then Some(Socks5)
    else None
  }

  function DetectProtocol(raw: bytes): Option<Protocol> { DetectTrimmed(Trim(raw)) }

  lemma SchemeShows(s: bytes, word: bytes)
    requires HasScheme(s, word)
    ensures Contains(s, SCHEME_END)
  {
    ContainsInside(word, SCHEME_END, s[|word| + 3..]);
    assert s == word + SCHEME_END + s[|word| + 3..];
  }

  /** Every text a protocol is detected for contains "://" and does not start a comment. */
  lemma DetectedShowsScheme(s: bytes)
    requires DetectTrimmed(s).Some?
    ensures Contains(s, SCHEME_END) && s != [] && s[0] != HASH
  {
    var word :=
      if HasScheme(s, VMESS) then VMESS else if HasScheme(s, VLESS) then VLESS
      else if HasScheme(s, TROJAN) then TROJAN else if HasScheme(s, SS) then SS
      else if HasScheme(s, HYSTERIA2) then HYSTERIA2 else if HasScheme(s, HY2) then HY2
      else if HasScheme(s, TUIC) then TUIC else if HasScheme(s, WIREGUARD) then WIREGUARD
      else if HasScheme(s, SOCKS5) then SOCKS5 else if HasScheme(s, SOCKS4) then SOCKS4 else SOCKS;
    SchemeShows(s, word);
    assert s[0] == (word + SCHEME_END)[0];
  }

  lemma SchemeLetter(s: bytes)
    requires DetectTrimmed(s).Some?
    ensures |s| >= 5 && IsLower(s[0])
  {
  }

  // ---- fragments ---------------------------------------------------------------------

  function HexValue(c: byte): (v: int)
    ensures -1 <= v < 16
  {
    if IsDigit(c) then c - 48 else if 97 <= c <= 102 then c - 87 else if 65 <= c <= 70 then c - 55 else -1
  }

  /** url.QueryUnescape. */
  function QueryUnescape(s: bytes): Option<bytes> {
    if s == [] then Some([])
    else if s[0] == PERCENT then
      if |s| < 3 || HexValue(s[1]) < 0 || HexValue(s[2]) < 0 then None
      else match QueryUnescape(s[3..])
        case None => None
        case Some(rest) => Some([HexValue(s[1]) * 16 + HexValue(s[2])] + rest)
    else match QueryUnescape(s[1..])
      case None => None
      case Some(rest) => Some([if s[0] == PLUS then SPACE else s[0]] + rest)
  }

  /** The display name a fragment stands for: unescaped when that is possible, else verbatim. */
  function NameOf(fragment: bytes): bytes {
    match QueryUnescape(fragment)
    case Some(name) => name
    case None => fragment
  }

  function ExtractFragment(raw: bytes): (bytes, bytes) {
    var i := LastIndexOf(raw, HASH);
    if i < 0 then (raw, []) else (raw[..i], NameOf(raw[i + 1..]))
  }

  lemma FragmentSplits(uri: bytes, frag: bytes)
    requires HASH !in frag
    ensures ExtractFragment(uri + [HASH] + frag) == (uri, NameOf(frag))
  {
    LastIndexSplits(uri, HASH, frag);
    var raw := uri + [HASH] + frag;
    assert raw[..|uri|] == uri && raw[|uri| + 1..] == frag;
  }

  lemma {:induction false} PlainName(name: bytes)
    requires PERCENT !in name && PLUS !in name
    ensures NameOf(name) == name && QueryUnescape(name) == Some(name)
  {
    if name != [] {
      PlainName(name[1..]);
      assert name == [name[0]] + name[1..];
    }
  }

  function HexDigit(v: int): (c: byte)
    requires 0 <= v < 16
    ensures HexValue(c) == v && c != HASH
  {
    if v < 10 then v + 48 else v + 55
  }

  function EscapeByte(c: byte): bytes {
    if IsUpper(c) || IsLower(c) || IsDigit(c) || c == MINUS || c == UNDERSCORE || c == 46 || c == 126 then [c]
    else if c == SPACE then [PLUS]
    else [PERCENT, HexDigit(c / 16), HexDigit(c % 16)]
  }

  /** url.QueryEscape, the printer QueryUnescape reads back. */
  function QueryEscape(s: bytes): bytes {
    if s == [] then [] else EscapeByte(s[0]) + QueryEscape(s[1..])
  }

  lemma UnescapeByte(c: byte, rest: bytes)
    requires QueryUnescape(rest).Some?
    ensures QueryUnescape(EscapeByte(c) + rest) == Some([c] + QueryUnescape(rest).value)
    ensures HASH !in EscapeByte(c)
  {
  }

  lemma {:induction false} UnescapeEscape(s: bytes)
    ensures NameOf(QueryEscape(s)) == s && QueryUnescape(QueryEscape(s)) == Some(s) && HASH !in QueryEscape(s)
  {
    if s != [] {
      UnescapeEscape(s[1..]);
      UnescapeByte(s[0], QueryEscape(s[1..]));
      assert s == [s[0]] + s[1..];
    }
  }

  // ---- base64 look-alikes ------------------------------------------------------------

  predicate IsBase64Char(c: byte) { IsUpper(c) || IsLower(c) || IsDigit(c) || c == PLUS || c == SLASH }

  predicate IsWrapSpace(c: byte) { c == NEWLINE || c == RETURN || c == SPACE || c == TAB }

  predicate IsBase64Encoded(s: bytes) {
    s != [] && !Contains(s, SCHEME_END) && forall c | c in s :: IsBase64Char(c) || c == EQUALS || IsWrapSpace(c)
  }

  /** What LooksLikeBase64 allows at position i. */
  predicate PlausibleAt(s: bytes, i: nat)
    requires i < |s|
  {
    IsBase64Char(s[i]) || s[i] == MINUS || s[i] == UNDERSCORE || (s[i] == EQUALS && i >= |s| - 2)
  }

  predicate Plausible(s: bytes) {
    |s| != 0 && |s| % 4 != 1 && forall i | 0 <= i < |s| :: PlausibleAt(s, i)
  }

  method LooksLikeBase64(s: bytes) returns (b: bool)
    ensures b == Plausible(s)
  {
    if |s| == 0 || |s| % 4 == 1 {
      return false;
    }
    for i := 0 to |s|
      invariant forall k | 0 <= k < i :: PlausibleAt(s, k)
    {
      if !PlausibleAt(s, i) {
        return false;
      }
    }
    return true;
  }

  lemma EncodingPlausible(e: Encoding, b: bytes)
    requires b != []
    ensures Plausible(Encode(e, b))
  {
  }

  // ---- trial decoding ----------------------------------------------------------------

  const TRIAL_ORDER: seq<Encoding> := [Std, RawStd, Url, RawUrl]

  function FirstAccepted(order: seq<Encoding>, s: bytes): (r: Option<bytes>)
    ensures r.None? <==> forall e | e in order :: Decode(e, s).None?
    ensures r.Some? ==> exists e | e in order :: Decode(e, s) == r
  {
    if order == [] then None
    else if Decode(order[0], s).Some? then Decode(order[0], s)
    else assert forall e | e in order :: e == order[0] || e in order[1..]; FirstAccepted(order[1..], s)
  }

  function DecodeAny(s: bytes): Option<bytes> { FirstAccepted(TRIAL_ORDER, s) }

  method DecodeBase64(s: bytes) returns (r: Option<bytes>)
    ensures r == DecodeAny(s)
  {
    var i := 0;
    while i < |TRIAL_ORDER|
      invariant 0 <= i <= |TRIAL_ORDER|
      invariant DecodeAny(s) == FirstAccepted(TRIAL_ORDER[i..], s)
    {
      var b := Decode(TRIAL_ORDER[i], s);
      if b.Some? {
        return b;
      }
      i := i + 1;
    }
    return None;
  }

  lemma TriesEach(e: Encoding)
    ensures e in TRIAL_ORDER
  {
  }

  lemma AcceptedByAny(order: seq<Encoding>, e: Encoding, s: bytes)
    requires e in order && Decode(e, s).Some?
    ensures FirstAccepted(order, s) == Decode(e, s)
  {
    assert FirstAccepted(order, s).Some? by { assert !Decode(e, s).None?; }
    var f :| f in order && Decode(f, s) == FirstAccepted(order, s);
    DecodersAgree(e, f, s);
  }

  /** The order of the trials is immaterial: any list of the four decoders gives the same answer. */
  lemma TrialOrderImmaterial(order: seq<Encoding>, s: bytes)
    requires forall e: Encoding :: e in order
    ensures FirstAccepted(order, s) == DecodeAny(s)
  {
    if e: Encoding :| Decode(e, s).Some? {
      TriesEach(e);
      AcceptedByAny(order, e, s);
      AcceptedByAny(TRIAL_ORDER, e, s);
    }
  }

  /** DecodeBase64 undoes each of the four encodings on all bytes. */
  lemma DecodeAnyEncode(e: Encoding, b: bytes)
    ensures DecodeAny(Encode(e, b)) == Some(b)
  {
    DecodeEncode(e, b);
    TriesEach(e);
    AcceptedByAny(TRIAL_ORDER, e, Encode(e, b));
  }

  function Fill(s: bytes): bytes { if |s| % 4 == 0 then s else s + seq(4 - |s| % 4, _ => EQUALS) }

  function DecodeBase64URL(s: bytes): Option<bytes> { Decode(Url, Fill(s)) }

  /** Filling an unpadded encoding gives the padded one, and leaves the padded one alone. */
  lemma FillPads(e: Encoding, b: bytes)
    ensures Fill(Encode(e, b)) == Encode(if e.UrlSafe() then Url else Std, b)
  {
    var p := if e.UrlSafe() then Url else Std;
    SameLetters(e, p, Sextets(b));
    EncodedLength(e, b);
  }

  lemma SameLetters(e: Encoding, f: Encoding, v: seq<sextet>)
    requires e.UrlSafe() == f.UrlSafe()
    ensures Letters(e, v) == Letters(f, v)
  {
  }

  lemma DecodeBase64URLEncode(e: Encoding, b: bytes)
    requires e.UrlSafe()
    ensures DecodeBase64URL(Encode(e, b)) == Some(b)
  {
    FillPads(e, b);
    DecodeEncode(Url, b);
  }

  // ---- public keys -------------------------------------------------------------------

  function ToStd(s: bytes): (r: bytes)
    ensures |r| == |s| && forall i | 0 <= i < |s| :: r[i] == StdByte(s[i])
  {
    if s == [] then [] else [StdByte(s[0])] + ToStd(s[1..])
  }

  predicate ValidPublicKey(s: bytes) {
    s != [] && var b := Decode(Std, Fill(ToStd(s))); b.Some? && |b.value| == 32
  }

  function StdByte(c: byte): byte { if c == MINUS then PLUS else if c == UNDERSCORE then SLASH else c }

  lemma StdLetter(e: Encoding, v: sextet)
    ensures StdByte(e.Letter(v)) == Std.Letter(v) == RawStd.Letter(v)
  {
  }

  lemma ToStdEncode(e: Encoding, b: bytes)
    ensures ToStd(Encode(e, b)) == Encode(if e.Padded() then Std else RawStd, b)
  {
    var f := if e.Padded() then Std else RawStd;
    var s, t, v := Encode(e, b), Encode(f, b), Sextets(b);
    forall i | 0 <= i < |s| ensures ToStd(s)[i] == t[i] {
      if i < |v| {
        StdLetter(e, v[i]);
      }
    }
  }

  /** A key is accepted in any of the four encodings exactly when it has 32 bytes. */
  lemma PublicKeyLength(e: Encoding, b: bytes)
    ensures ValidPublicKey(Encode(e, b)) <==> |b| == 32
  {
    var f := if e.Padded() then Std else RawStd;
    ToStdEncode(e, b);
    FillPads(f, b);
    DecodeEncode(Std, b);
  }
}
