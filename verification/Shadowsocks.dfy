/** Shadowsocks links: pkg/parser/ss.go, with the printer its formats imply. */
module Shadowsocks {
  import opened Bytes
  import opened Options
  import opened Base64
  import opened Detector

  datatype Error = MissingAt | BadServerPort | NoSeparator | BadPort
  datatype Result<+T> = Ok(value: T) | Err(error: Error)
  datatype Config = Config(server: bytes, port: int, name: bytes, cipher: bytes, password: bytes)

  // ---- numbers -----------------------------------------------------------------------

  const INT_MAX: int := 0x7FFF_FFFF_FFFF_FFFF
  const UINT_MAX: int := 0xFFFF_FFFF_FFFF_FFFF

  datatype Digits = Syntax | Range | Number(n: nat)

  function ParseUint(s: bytes, acc: nat): Digits {
    if s == [] then Number(acc)
    else if !IsDigit(s[0]) then Syntax
    else if acc * 10 + (s[0] - 48) > UINT_MAX then Range
    else ParseUint(s[1..], acc * 10 + (s[0] - 48))
  }

  function Clamp(n: int): int { if n < -INT_MAX - 1 then -INT_MAX - 1 else if n > INT_MAX then INT_MAX else n }

  /** The integer strconv.Atoi returns beside its error: 0 for bad syntax, the nearest 64-bit
      value when out of range. */
  function Atoi(s: bytes): int {
    var signed := s != [] && (s[0] == MINUS || s[0] == PLUS);
    var body := if signed then s[1..] else s;
    var negative := signed && s[0] == MINUS;
    if body == [] then 0
    else match ParseUint(body, 0)
      case Syntax => 0
      case Range => if negative then -INT_MAX - 1 else INT_MAX
      case Number(n) => Clamp(if negative then -(n as int) else n as int)
  }

  function Itoa(n: nat): (s: bytes)
    ensures s != [] && forall c | c in s :: IsDigit(c)
  {
    if n < 10 then [48 + n] else Itoa(n / 10) + [48 + n % 10]
  }

  lemma {:induction false} ParseItoa(n: nat, rest: bytes)
    requires n <= INT_MAX
    ensures ParseUint(Itoa(n) + rest, 0) == ParseUint(rest, n)
  {
    if n < 10 {
      assert (Itoa(n) + rest)[1..] == rest;
    } else {
      var d: bytes := [48 + n % 10];
      assert Itoa(n) + rest == Itoa(n / 10) + (d + rest);
      ParseItoa(n / 10, d + rest);
      assert (d + rest)[1..] == rest;
    }
  }

  lemma AtoiItoa(n: nat)
    requires n <= INT_MAX
    ensures Atoi(Itoa(n)) == n
  {
    ParseItoa(n, []);
    assert Itoa(n) + [] == Itoa(n);
    assert Itoa(n)[0] in Itoa(n);
  }

  // ---- host and port -----------------------------------------------------------------

  /** strings.LastIndex(s, "]:"). */
  function LastPair(s: bytes): (r: int)
    ensures r == -1 || 0 <= r < |s| - 1
    ensures r >= 0 ==> s[r] == CLOSE_BRACKET && s[r + 1] == COLON
  {
    if |s| < 2 then -1
    else if s[|s| - 2] == CLOSE_BRACKET && s[|s| - 1] == COLON then |s| - 2
    else LastPair(s[..|s| - 1])
  }

  lemma {:induction false} LastPairSplits(a: bytes, b: bytes)
    requires CLOSE_BRACKET !in b
    ensures LastPair(a + [CLOSE_BRACKET, COLON] + b) == |a|
  {
    var s := a + [CLOSE_BRACKET, COLON] + b;
    if b == [] {
      assert s[|s| - 2] == CLOSE_BRACKET;
    } else {
      assert s[|s| - 2] == if |b| == 1 then COLON else b[|b| - 2];
      assert s[..|s| - 1] == a + [CLOSE_BRACKET, COLON] + b[..|b| - 1];
      LastPairSplits(a, b[..|b| - 1]);
    }
  }

  function SplitHostPort(s: bytes): Option<(bytes, bytes)> {
    var open := s != [] && s[0] == OPEN_BRACKET;
    if open && LastPair(s) >= 1 then Some((s[1..LastPair(s)], s[LastPair(s) + 2..]))
    else if open && s[|s| - 1] == CLOSE_BRACKET then None
    else if LastIndexOf(s, COLON) >= 0 then Some((s[..LastIndexOf(s, COLON)], s[LastIndexOf(s, COLON) + 1..]))
    else None
  }

  /** host:port, or [host]:port as IPv6 literals need. */
  function PrintHostPort(host: bytes, port: nat, bracketed: bool): bytes {
    if bracketed then [OPEN_BRACKET] + host + [CLOSE_BRACKET, COLON] + Itoa(port) else host + [COLON] + Itoa(port)
  }

  lemma HostPortRoundTrip(host: bytes, port: nat, bracketed: bool)
    requires bracketed || host == [] || host[0] != OPEN_BRACKET
    ensures SplitHostPort(PrintHostPort(host, port, bracketed)) == Some((host, Itoa(port)))
  {
    var s, p := PrintHostPort(host, port, bracketed), Itoa(port);
    if bracketed {
      LastPairSplits([OPEN_BRACKET] + host, p);
      assert s[1..|host| + 1] == host && s[|host| + 3..] == p;
    } else {
      LastIndexSplits(host, COLON, p);
      assert s[..|host|] == host && s[|host| + 1..] == p;
    }
  }

  // ---- the link ----------------------------------------------------------------------

  /** method:password behind the userinfo part: base64 when that is plausible and decodes to
      something, the text itself otherwise. */
  function CredentialOf(user: bytes): bytes {
    var decoded := if Plausible(user) then DecodeAny(user) else None;
    if decoded.Some? && decoded.value != [] then decoded.value else user
  }

  const SS_PREFIX: bytes := SS + SCHEME_END

  function ParseSS(raw: bytes): Result<Config> {
    var (uri, name) := ExtractFragment(if SS_PREFIX <= raw then raw[|SS_PREFIX|..] else raw);
    ParseBody(uri, name)
  }

  /** The link without prefix and fragment. */
  function ParseBody(uri: bytes, name: bytes): Result<Config> {
    var at := LastIndexOf(uri, AT);
    if at < 0 then Err(MissingAt)
    else match SplitHostPort(uri[at + 1..])
      case None => Err(BadServerPort)
      case Some((host, portText)) => Assemble(CredentialOf(uri[..at]), host, portText, name)
  }

  function Assemble(cred: bytes, host: bytes, portText: bytes, name: bytes): Result<Config> {
    var port := if Atoi(portText) == 0 then 8388 else Atoi(portText);
    var colon := IndexOf(cred, COLON);
    if colon < 0 then Err(NoSeparator)
    else if port < 1 || port > 65535 then Err(BadPort)
    else Ok(Config(host, port, name, cred[..colon], cred[colon + 1..]))
  }

  function Credential(c: Config): bytes { c.cipher + [COLON] + c.password }

  function FragmentText(frag: Option<bytes>): bytes { if frag.None? then [] else [HASH] + frag.value }

  function PrintSS(user: bytes, c: Config, bracketed: bool, frag: Option<bytes>): bytes
    requires c.port >= 0
  {
    SS_PREFIX + (user + [AT] + PrintHostPort(c.server, c.port, bracketed) + FragmentText(frag))
  }

  /** What a configuration must satisfy for its printed form to be unambiguous. */
  predicate Printable(c: Config, bracketed: bool) {
    && COLON !in c.cipher
    && AT !in c.server && HASH !in c.server
    && (bracketed || c.server == [] || c.server[0] != OPEN_BRACKET)
    && 1 <= c.port <= 65535
  }

  /** The fragment part of the link stands for the configuration's name. */
  predicate Names(frag: Option<bytes>, name: bytes) {
    match frag
    case None => name == []
    case Some(f) => HASH !in f && NameOf(f) == name
  }

  lemma AssembleCredential(c: Config)
    requires COLON !in c.cipher && 1 <= c.port <= 65535
    ensures Assemble(Credential(c), c.server, Itoa(c.port), c.name) == Ok(c)
  {
    AtoiItoa(c.port);
    IndexSplits(c.cipher, COLON, c.password);
    var cred := Credential(c);
    assert cred[..|c.cipher|] == c.cipher && cred[|c.cipher| + 1..] == c.password;
  }

  lemma FragmentPart(uri: bytes, frag: Option<bytes>, name: bytes)
    requires Names(frag, name) && (frag.None? ==> HASH !in uri)
    ensures ExtractFragment(uri + FragmentText(frag)) == (uri, name)
  {
    if frag.Some? {
      FragmentSplits(uri, frag.value);
      assert uri + ([HASH] + frag.value) == uri + [HASH] + frag.value;
    } else {
      assert uri + [] == uri;
      assert LastIndexOf(uri, HASH) == -1;
    }
  }

  lemma PrintedHostPort(c: Config, bracketed: bool)
    requires Printable(c, bracketed)
    ensures var hp := PrintHostPort(c.server, c.port, bracketed); AT !in hp && HASH !in hp
  {
  }

  /** A link is its body, named by its fragment. */
  lemma LinkParts(uri: bytes, frag: Option<bytes>, name: bytes)
    requires Names(frag, name) && (frag.None? ==> HASH !in uri)
    ensures ParseSS(SS_PREFIX + (uri + FragmentText(frag))) == ParseBody(uri, name)
  {
    var raw := SS_PREFIX + (uri + FragmentText(frag));
    assert raw[|SS_PREFIX|..] == uri + FragmentText(frag);
    FragmentPart(uri, frag, name);
  }

  lemma BodyAt(user: bytes, hp: bytes, name: bytes)
    requires AT !in hp
    ensures ParseBody(user + [AT] + hp, name) == match SplitHostPort(hp)
      case None => Err(BadServerPort)
      case Some((host, portText)) => Assemble(CredentialOf(user), host, portText, name)
  {
    var uri := user + [AT] + hp;
    LastIndexSplits(user, AT, hp);
    assert uri[..|user|] == user && uri[|user| + 1..] == hp;
  }

  lemma PrintedBody(user: bytes, c: Config, bracketed: bool)
    requires Printable(c, bracketed) && CredentialOf(user) == Credential(c)
    ensures ParseBody(user + [AT] + PrintHostPort(c.server, c.port, bracketed), c.name) == Ok(c)
  {
    PrintedHostPort(c, bracketed);
    BodyAt(user, PrintHostPort(c.server, c.port, bracketed), c.name);
    HostPortRoundTrip(c.server, c.port, bracketed);
    AssembleCredential(c);
  }

  /** Parsing undoes printing for every userinfo text that stands for the credential. */
  lemma ParsePrint(user: bytes, c: Config, bracketed: bool, frag: Option<bytes>)
    requires Printable(c, bracketed) && Names(frag, c.name)
    requires CredentialOf(user) == Credential(c) && (frag.None? ==> HASH !in user)
    ensures ParseSS(PrintSS(user, c, bracketed, frag)) == Ok(c)
  {
    PrintedHostPort(c, bracketed);
    LinkParts(user + [AT] + PrintHostPort(c.server, c.port, bracketed), frag, c.name);
    PrintedBody(user, c, bracketed);
  }

  /** Userinfo in any of the four base64 encodings is read back, whatever bytes the password has. */
  lemma EncodedRoundTrip(e: Encoding, c: Config, bracketed: bool, frag: Option<bytes>)
    requires Printable(c, bracketed) && Names(frag, c.name)
    ensures ParseSS(PrintSS(Encode(e, Credential(c)), c, bracketed, frag)) == Ok(c)
  {
    var user := Encode(e, Credential(c));
    EncodingPlausible(e, Credential(c));
    DecodeAnyEncode(e, Credential(c));
    EncodeAlphabet(e, Credential(c));
    ParsePrint(user, c, bracketed, frag);
  }

  /** Plain method:password userinfo is never taken for base64. */
  lemma PlainNeverBase64(user: bytes)
    requires COLON in user
    ensures !Plausible(user) && CredentialOf(user) == user
  {
    var i :| 0 <= i < |user| && user[i] == COLON;
    assert !PlausibleAt(user, i);
  }

  lemma PlainRoundTrip(c: Config, bracketed: bool, frag: Option<bytes>)
    requires Printable(c, bracketed) && Names(frag, c.name)
    requires frag.None? ==> HASH !in Credential(c)
    ensures ParseSS(PrintSS(Credential(c), c, bracketed, frag)) == Ok(c)
  {
    assert Credential(c)[|c.cipher|] == COLON;
    PlainNeverBase64(Credential(c));
    ParsePrint(Credential(c), c, bracketed, frag);
  }

  /** The name survives verbatim when it has no '#', '%' or '+', and query-escaped always. */
  lemma NamesRoundTrip(name: bytes)
    ensures HASH !in name && PERCENT !in name && PLUS !in name ==> Names(Some(name), name)
    ensures Names(Some(QueryEscape(name)), name)
  {
    if PERCENT !in name && PLUS !in name {
      PlainName(name);
    }
    UnescapeEscape(name);
  }

  lemma NoAtRejected(uri: bytes, frag: Option<bytes>)
    requires AT !in uri && (frag.None? ==> HASH !in uri) && (frag.Some? ==> HASH !in frag.value)
    ensures ParseSS(SS_PREFIX + (uri + FragmentText(frag))) == Err(MissingAt)
  {
    var name := if frag.None? then [] else NameOf(frag.value);
    LinkParts(uri, frag, name);
    assert LastIndexOf(uri, AT) == -1;
  }

  /** The form that hides host and port inside the base64 text, which the format list of ss.go
      calls legacy, is always turned down: base64 has no '@' in it. */
  lemma LegacyRejected(e: Encoding, b: bytes, frag: Option<bytes>)
    requires frag.Some? ==> HASH !in frag.value
    ensures ParseSS(SS_PREFIX + (Encode(e, b) + FragmentText(frag))) == Err(MissingAt)
  {
    var uri := Encode(e, b);
    EncodeAlphabet(e, b);
    assert !InAlphabet(e, AT) && !InAlphabet(e, HASH);
    NoAtRejected(uri, frag);
  }

  // ---- numbers and ports in full -----------------------------------------------------

  ghost predicate AllDigits(s: bytes) { forall i | 0 <= i < |s| :: '0' as int <= s[i] <= '9' as int }

  function Digit(c: byte): int { c - '0' as int }

  lemma {:induction false} ParseMore(s: bytes, c: byte, acc: nat)
    requires AllDigits(s) && '0' as int <= c <= '9' as int && acc <= UINT_MAX
    ensures !ParseUint(s, acc).Syntax?
    ensures ParseUint(s, acc).Range? ==> ParseUint(s + [c], acc).Range?
    ensures ParseUint(s, acc).Number? ==> var n := ParseUint(s, acc).n * 10 + Digit(c);
      ParseUint(s + [c], acc) == if n > UINT_MAX then Range else Number(n)
  {
    if s == [] {
      assert (s + [c])[1..] == [];
    } else {
      assert (s + [c])[1..] == s[1..] + [c];
      if acc * 10 + Digit(s[0]) <= UINT_MAX {
        ParseMore(s[1..], c, acc * 10 + Digit(s[0]));
      }
    }
  }

  lemma AtoiDigits(s: bytes)
    requires AllDigits(s) && s != []
    ensures Atoi(s) == match ParseUint(s, 0)
      case Syntax => 0
      case Range => INT_MAX
      case Number(n) => Clamp(n)
  {
  }

  /** Decimal notation: each further digit makes the number ten times what it was, plus the digit, up
      to the largest 64-bit integer. */
  lemma DigitByDigit(s: bytes, c: byte)
    requires AllDigits(s) && s != [] && '0' as int <= c <= '9' as int
    ensures var n := 10 * Atoi(s) + (c - '0' as int); Atoi(s + [c]) == if n > INT_MAX then INT_MAX else n
    ensures Atoi([c]) == c - '0' as int
  {
    AtoiDigits(s);
    AtoiDigits(s + [c]);
    ParseMore(s, c, 0);
    AtoiDigits([c]);
    ParseMore([], c, 0);
    assert [] + [c] == [c];
  }

  /** The port is the number behind the colon, 8388 where there is none; a link is accepted only with
      a method, a colon, and a port that exists. */
  lemma PortInFull(cred: bytes, host: bytes, portText: bytes, name: bytes)
    ensures var r := Assemble(cred, host, portText, name); var n := Atoi(portText);
      && (r.Ok? <==> ':' as int in cred && (n == 0 || 1 <= n <= 65535))
      && (r.Ok? ==> r.value.port == (if n == 0 then 8388 else n) && r.value.server == host && r.value.name == name)
      && (r.Ok? ==> cred == r.value.cipher + [':' as int] + r.value.password && ':' as int !in r.value.cipher)
      && (r == Err(NoSeparator) <==> ':' as int !in cred)
    ensures Atoi([]) == 0
  {
  }

  lemma {:induction false} NoPair(s: bytes)
    requires COLON !in s
    ensures LastPair(s) == -1
  {
    if |s| >= 2 {
      NoPair(s[..|s| - 1]);
    }
  }

  lemma NoPort(host: bytes)
    requires COLON !in host
    ensures SplitHostPort(host) == None
  {
    NoPair(host);
  }

  /** A server without a colon behind it is turned down. */
  lemma PortMissing(user: bytes, host: bytes, name: bytes)
    requires AT !in host && COLON !in host
    ensures ParseBody(user + [AT] + host, name) == Err(BadServerPort)
  {
    BodyAt(user, host, name);
    NoPort(host);
  }

  /** One with a colon and nothing after it has port 8388. */
  lemma DefaultPort(user: bytes, host: bytes, name: bytes)
    requires AT !in host && (host == [] || host[0] != OPEN_BRACKET) && COLON in CredentialOf(user)
    ensures var r := ParseBody(user + [AT] + (host + [COLON]), name);
      r.Ok? && r.value.server == host && r.value.port == 8388
  {
    BodyAt(user, host + [COLON], name);
    ColonSplits(host);
    PortInFull(CredentialOf(user), host, [], name);
  }

  lemma ColonSplits(host: bytes)
    requires host == [] || host[0] != OPEN_BRACKET
    ensures SplitHostPort(host + [COLON]) == Some((host, []))
  {
    LastIndexSplits(host, COLON, []);
    assert host + [COLON] + [] == host + [COLON];
    assert (host + [COLON])[..|host|] == host && (host + [COLON])[|host| + 1..] == [];
  }

  /** An IPv6 literal in brackets without a port is turned down too, whatever colons it has. */
  lemma BracketsWithoutPort(user: bytes, host: bytes, name: bytes)
    requires AT !in host && CLOSE_BRACKET !in host
    ensures ParseBody(user + [AT] + ([OPEN_BRACKET] + host + [CLOSE_BRACKET]), name) == Err(BadServerPort)
  {
    BodyAt(user, [OPEN_BRACKET] + host + [CLOSE_BRACKET], name);
    OneBracket([OPEN_BRACKET] + host);
  }

  lemma {:induction false} OneBracket(s: bytes)
    requires CLOSE_BRACKET !in s
    ensures LastPair(s + [CLOSE_BRACKET]) == -1
  {
    NoBracket(s);
    assert (s + [CLOSE_BRACKET])[..|s|] == s;
  }

  lemma {:induction false} NoBracket(s: bytes)
    requires CLOSE_BRACKET !in s
    ensures LastPair(s) == -1
  {
    if |s| >= 2 {
      NoBracket(s[..|s| - 1]);
    }
  }
}
