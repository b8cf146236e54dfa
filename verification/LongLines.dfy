/** A payload with a line that is too long for the scanner, in full: a good Shadowsocks link in front
    of it is not filed. */
module LongLines {
  import opened Bytes
  import opened Options
  import opened Detector
  import opened Fetcher
  import opened State
  import S = Subscription
  import Ss = Shadowsocks

  /** The source's parser for Shadowsocks links; no other links in the payload. */
  function SsLink(p: Protocol, raw: bytes): Option<Ss.Config> {
    if p == Protocol.Shadowsocks && Ss.ParseSS(raw).Ok? then Some(Ss.ParseSS(raw).value) else None
  }

  const SS_LINKS: S.Links<Ss.Config> := S.Links(SsLink, (raw: bytes) => false)

  /** "ss://a:b@c:1", and what it stands for. */
  const GOOD_TAIL: bytes := [97, COLON, 98, AT, 99, COLON, 49]
  const GOOD: bytes := SS + SCHEME_END + GOOD_TAIL
  const GOOD_CONFIG: Ss.Config := Ss.Config([99], 1, [], [97], [98])

  lemma GoodIsPrinted(c: Ss.Config, user: bytes, hp: bytes)
    requires c == GOOD_CONFIG && user == [97, COLON, 98] && hp == [99, COLON, 49]
    ensures user == Ss.Credential(c) && hp == Ss.PrintHostPort(c.server, c.port, false)
    ensures Ss.PrintSS(user, c, false, None) == GOOD
  {
    assert Ss.Itoa(1) == [49];
    assert user + [AT] + hp + [] == [97, COLON, 98, AT, 99, COLON, 49];
  }

  lemma GoodIsParsed()
    ensures Ss.ParseSS(GOOD) == Ss.Ok(GOOD_CONFIG)
  {
    GoodIsPrinted(GOOD_CONFIG, [97, COLON, 98], [99, COLON, 49]);
    Ss.PlainRoundTrip(GOOD_CONFIG, false, None);
  }

  lemma SsDetected(raw: bytes)
    requires HasScheme(raw, SS)
    ensures DetectTrimmed(raw) == Some(Protocol.Shadowsocks)
  {
    assert raw[0] == (SS + SCHEME_END)[0] == 115;
  }

  function LongLine(): bytes { seq(S.MAX_TOKEN, _ => 97) }

  /** A text with a scheme in it is no base64 payload. */
  lemma NotUnwrapped(word: bytes, rest: bytes)
    ensures S.Unwrap(word + SCHEME_END + rest) == word + SCHEME_END + rest
  {
    ContainsInside(word, SCHEME_END, rest);
  }

  lemma TwoPieces(a: bytes, b: bytes)
    requires NEWLINE !in a && NEWLINE !in b
    ensures Split(a + [NEWLINE] + b) == [a, b]
  {
    SplitAppend(a, b);
    SplitOneLine(a);
    SplitOneLine(b);
  }

  lemma LongPayloadPieces(tail: bytes, long: bytes)
    requires NEWLINE !in tail && long != [] && NEWLINE !in long && IsLower(long[|long| - 1])
    ensures var good := SS + SCHEME_END + tail;
      var input := good + [NEWLINE] + long;
      Trim(input) == input && S.Pieces(input) == [good, long]
  {
    var good := SS + SCHEME_END + tail;
    var input := good + [NEWLINE] + long;
    LetterEnds(input);
    assert input == SS + SCHEME_END + (tail + [NEWLINE] + long);
    NotUnwrapped(SS, tail + [NEWLINE] + long);
    TwoPieces(good, long);
  }

  lemma SsLineRead<L>(links: S.Links<L>, raw: bytes, link: L)
    requires Trim(raw) == raw && HasScheme(raw, SS) && links.parse(Protocol.Shadowsocks, raw) == Some(link)
    ensures S.ReadLine(links, raw) == S.Good(S.Config(link, raw))
  {
    SsDetected(raw);
    assert raw[0] == (SS + SCHEME_END)[0] == 115;
  }

  lemma GoodLinkParses()
    ensures SS_LINKS.parse(Protocol.Shadowsocks, GOOD) == Some(GOOD_CONFIG)
  {
    GoodIsParsed();
    assert SsLink(Protocol.Shadowsocks, GOOD) == Some(GOOD_CONFIG);
  }

  lemma GoodIsRead()
    ensures S.ReadLine(SS_LINKS, GOOD) == S.Good(S.Config(GOOD_CONFIG, GOOD))
  {
    GoodLinkParses();
    assert GOOD[0] == 115 && |GOOD| == 12 && GOOD[11] == 49;
    LetterEnds(GOOD);
    SsLineRead(SS_LINKS, GOOD, GOOD_CONFIG);
  }

  lemma FirstLineCollected<L>(links: S.Links<L>, a: bytes, b: bytes, c: S.Config<L>)
    requires S.ReadLine(links, a) == S.Good(c)
    ensures S.Collect(links, [a, b]).0 != [] && S.Collect(links, [a, b]).0[0] == c
  {
    assert [a, b][..1] == [a] && [a][..0] == [];
    assert S.Collect(links, [a]) == S.AddLine(([], 0), S.Good(c));
  }

  lemma TwoLines(a: bytes, b: bytes)
    requires a != [] && b != [] && a[|a| - 1] != RETURN && b[|b| - 1] != RETURN
    ensures S.AllLines([a, b]) == [a, b]
  {
    var none: seq<bytes> := [];
    assert [a, b][1..] == [b] && [b][1..] == none;
    assert S.AllLines([b]) == [b];
  }

  /** Nothing of a payload with a long last line is filed, however good its first line. */
  lemma LongPayload<L>(links: S.Links<L>, hash: bytes -> bytes, describe: S.Config<L> -> Config,
      input: bytes, good: bytes, long: bytes, c: S.Config<L>)
    requires Trim(input) == input != [] && S.Pieces(input) == [good, long] && |long| >= S.MAX_TOKEN
    requires S.AllLines([good, long]) == [good, long] && S.ReadLine(links, good) == S.Good(c)
    ensures c in S.GoodLines(links, input) && Fetched(links, hash, describe, Some(input)) == map[]
  {
    assert long in S.Pieces(input);
    AcceptedLines(links, input);
    FirstLineCollected(links, good, long, c);
  }

  /** A Shadowsocks link that parses, followed by a line of 65536 bytes: the link is a good line of
      the payload, and nothing is filed. */
  lemma LongLineFilesNothing(hash: bytes -> bytes, describe: S.Config<Ss.Config> -> Config)
    ensures var input := GOOD + [NEWLINE] + LongLine();
      && S.Config(GOOD_CONFIG, GOOD) in S.GoodLines(SS_LINKS, input)
      && Fetched(SS_LINKS, hash, describe, Some(input)) == map[]
  {
    var long := LongLine();
    var input := GOOD + [NEWLINE] + long;
    LongPayloadPieces(GOOD_TAIL, long);
    GoodIsRead();
    TwoLines(GOOD, long);
    LongPayload(SS_LINKS, hash, describe, input, GOOD, long, S.Config(GOOD_CONFIG, GOOD));
  }
}
