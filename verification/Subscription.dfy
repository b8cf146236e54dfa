/** Whole payloads: pkg/parser/parser.go, and its round trip with the file the daemon publishes
    and the base64 body handleSub serves. The per-protocol link parsers are a parameter. */
module Subscription {
  import opened Bytes
  import opened Options
  import opened Base64
  import opened Detector

  datatype Config<+L> = Config(link: L, raw: bytes)

  /** Everything the payload parser takes from elsewhere: the link parsers and the test that
      tells a Reality link from a plain vless one. */
  datatype Links<!L> = Links(parse: (Protocol, bytes) -> Option<L>, isReality: bytes -> bool)

  datatype Outcome<+L> =
    | Empty
    | AllFailed(lines: nat)
    | TooLong(soFar: seq<Config<L>>)
    | Parsed(configs: seq<Config<L>>)

  // ---- one link ----------------------------------------------------------------------

  function ParseSingle<L>(links: Links<L>, raw: bytes): Option<Config<L>> {
    var t := Trim(raw);
    if t == [] then None
    else match DetectProtocol(t)
      case None => None
      case Some(p) =>
        var proto := if p == VLess && links.isReality(t) then Reality else p;
        match links.parse(proto, t)
        case None => None
        case Some(l) => Some(Config(l, t))
  }

  // ---- lines -------------------------------------------------------------------------

  /** bufio.MaxScanTokenSize. */
  const MAX_TOKEN: nat := 65536

  function DropReturn(s: bytes): bytes { if s != [] && s[|s| - 1] == RETURN then s[..|s| - 1] else s }

  /** The scanner over the newline-separated pieces of a text: the lines it yields, and whether
      it stopped at one that does not fit its buffer. The piece after the last newline counts
      only when it is not empty. */
  function Scan(pieces: seq<bytes>): (seq<bytes>, bool) {
    if pieces == [] || pieces == [[]] then ([], false)
    else if |pieces[0]| >= MAX_TOKEN then ([], true)
    else var (rest, tooLong) := Scan(pieces[1..]); ([DropReturn(pieces[0])] + rest, tooLong)
  }

  datatype Line<+L> = Skipped | Malformed | Good(config: Config<L>)

  function ReadLine<L>(links: Links<L>, text: bytes): Line<L> {
    var line := Trim(text);
    if line == [] || line[0] == HASH then Skipped
    else match ParseSingle(links, line)
      case None => Malformed
      case Some(c) => Good(c)
  }

  function AddLine<L>(sum: (seq<Config<L>>, nat), line: Line<L>): (seq<Config<L>>, nat) {
    match line
    case Skipped => sum
    case Malformed => (sum.0, sum.1 + 1)
    case Good(c) => (sum.0 + [c], sum.1)
  }

  /** Configurations and number of failures, line by line. */
  function Collect<L>(links: Links<L>, lines: seq<bytes>): (seq<Config<L>>, nat) {
    if lines == [] then ([], 0)
    else AddLine(Collect(links, lines[..|lines| - 1]), ReadLine(links, lines[|lines| - 1]))
  }

  function ParseLines<L>(links: Links<L>, text: bytes): Outcome<L> {
    var (lines, tooLong) := Scan(Split(text));
    var (configs, errs) := Collect(links, lines);
    if tooLong then TooLong(configs)
    else if configs == [] && errs > 0 then AllFailed(errs)
    else Parsed(configs)
  }

  // ---- the payload -------------------------------------------------------------------

  function StripWrap(s: bytes): bytes {
    if s == [] then [] else (if IsWrapSpace(s[0]) then [] else [s[0]]) + StripWrap(s[1..])
  }

  /** The text behind a payload: decoded when it looks like base64 and decodes, else itself. */
  function Unwrap(input: bytes): bytes {
    var decoded := if IsBase64Encoded(input) then Decode(Std, StripWrap(input)) else None;
    if decoded.Some? then decoded.value else input
  }

  function ParseText<L>(links: Links<L>, input: bytes): Outcome<L> {
    var t := Trim(input);
    if t == [] then Empty else ParseLines(links, Unwrap(t))
  }

  method Parse<L>(links: Links<L>, input: bytes) returns (r: Outcome<L>)
    ensures r == ParseText(links, input)
  {
    var text := Trim(input);
    if text == [] {
      return Empty;
    }
    if IsBase64Encoded(text) {
      var decoded := Decode(Std, StripWrap(text));
      if decoded.Some? {
        text := decoded.value;
      }
    }
    var (lines, tooLong) := Scan(Split(text));
    var configs, errs := ParseEach(links, lines);
    if tooLong {
      return TooLong(configs);
    }
    if configs == [] && errs > 0 {
      return AllFailed(errs);
    }
    return Parsed(configs);
  }

  /** The line loop of Parse. */
  method ParseEach<L>(links: Links<L>, lines: seq<bytes>) returns (configs: seq<Config<L>>, errs: nat)
    ensures (configs, errs) == Collect(links, lines)
  {
    configs, errs := [], 0;
    for i := 0 to |lines|
      invariant configs == Collect(links, lines[..i]).0 && errs == Collect(links, lines[..i]).1
    {
      assert lines[..i + 1][..i] == lines[..i];
      match ReadLine(links, lines[i]) {
        case Skipped =>
        case Malformed => errs := errs + 1;
        case Good(c) => configs := configs + [c];
      }
    }
    assert lines[..|lines|] == lines;
  }

  // ---- lines that are too long -------------------------------------------------------

  /** The newline-separated pieces of the text behind a payload. */
  function Pieces(input: bytes): seq<bytes> { Split(Unwrap(Trim(input))) }

  /** A blank payload is never looked at. */
  predicate Oversized(input: bytes) { Trim(input) != [] && exists p :: p in Pieces(input) && |p| >= MAX_TOKEN }

  /** The lines of the pieces, whatever their length. */
  function AllLines(pieces: seq<bytes>): seq<bytes> {
    if pieces == [] || pieces == [[]] then [] else [DropReturn(pieces[0])] + AllLines(pieces[1..])
  }

  /** The good lines of a whole payload, and those of the part that the scanner reads. */
  function GoodLines<L>(links: Links<L>, input: bytes): seq<Config<L>> {
    if Trim(input) == [] then [] else Collect(links, AllLines(Pieces(input))).0
  }

  function GoodLinesRead<L>(links: Links<L>, input: bytes): seq<Config<L>> {
    if Trim(input) == [] then [] else Collect(links, Scan(Pieces(input)).0).0
  }

  lemma {:induction false} ScanTooLong(pieces: seq<bytes>)
    ensures Scan(pieces).1 <==> exists p :: p in pieces && |p| >= MAX_TOKEN
    ensures !Scan(pieces).1 ==> Scan(pieces).0 == AllLines(pieces)
  {
    if !(pieces == [] || pieces == [[]]) {
      assert pieces == [pieces[0]] + pieces[1..];
      ScanTooLong(pieces[1..]);
    }
  }

  /** Parsing breaks off exactly when some line does not fit the scanner's buffer. */
  lemma TooLongIff<L>(links: Links<L>, input: bytes)
    ensures ParseText(links, input).TooLong? <==> Oversized(input)
    ensures Oversized(input) <==> Trim(input) != [] && exists p :: p in Split(Unwrap(Trim(input))) && |p| >= 65536
    ensures !Oversized(input) ==> GoodLinesRead(links, input) == GoodLines(links, input)
  {
    ScanTooLong(Pieces(input));
  }

  /** The line is a link that parses to c; a blank line or a comment. */
  ghost predicate LinkLine<L(!new)>(links: Links<L>, line: bytes, c: Config<L>) {
    Trim(line) != [] && Trim(line)[0] != '#' as int && ParseSingle(links, Trim(line)) == Some(c)
  }

  predicate IdleLine(line: bytes) { Trim(line) == [] || Trim(line)[0] == '#' as int }

  lemma ReadLineIs<L(!new)>(links: Links<L>, line: bytes)
    ensures forall c :: ReadLine(links, line) == Good(c) <==> LinkLine(links, line, c)
    ensures ReadLine(links, line) == Malformed <==> !IdleLine(line) && forall c :: !LinkLine(links, line, c)
  {
    if !IdleLine(line) && ParseSingle(links, Trim(line)).Some? {
      assert LinkLine(links, line, ParseSingle(links, Trim(line)).value);
    }
  }

  /** Line by line: a link that parses is added behind the others, any other line that is not idle is
      counted as a failure, an idle one is nothing. */
  lemma LinesRead<L(!new)>(links: Links<L>, lines: seq<bytes>, line: bytes)
    ensures Collect<L>(links, []) == ([], 0)
    ensures forall c | LinkLine(links, line, c) ::
      Collect(links, lines + [line]) == (Collect(links, lines).0 + [c], Collect(links, lines).1)
    ensures IdleLine(line) ==> Collect(links, lines + [line]) == Collect(links, lines)
    ensures !IdleLine(line) && (forall c :: !LinkLine(links, line, c)) ==>
      Collect(links, lines + [line]) == (Collect(links, lines).0, Collect(links, lines).1 + 1)
  {
    assert (lines + [line])[..|lines|] == lines;
    ReadLineIs(links, line);
  }

  lemma {:induction false} AllIdle<L(!new)>(links: Links<L>, lines: seq<bytes>)
    ensures Collect(links, lines) == ([], 0) <==> forall i | 0 <= i < |lines| :: IdleLine(lines[i])
  {
    if lines != [] {
      var front, last := lines[..|lines| - 1], lines[|lines| - 1];
      AllIdle(links, front);
      assert Collect(links, lines) == ([], 0) <==> Collect(links, front) == ([], 0) && ReadLine(links, last).Skipped?;
      assert forall i | 0 <= i < |lines| :: lines[i] == if i < |front| then front[i] else last;
    }
  }

  lemma ReadWhole<L(!new)>(links: Links<L>, input: bytes)
    requires Trim(input) != [] && !Oversized(input)
    ensures var sum := Collect(links, AllLines(Pieces(input)));
      ParseText(links, input) == if sum.0 == [] && sum.1 > 0 then AllFailed(sum.1) else Parsed(sum.0)
    ensures Collect(links, AllLines(Pieces(input))).0 == GoodLines(links, input)
  {
    ScanTooLong(Pieces(input));
  }

  /** A payload has no result when it is blank, when a line is too long, and when it has lines to read
      and no good one; otherwise its good lines are the result, be there none. */
  lemma OutcomeInFull<L(!new)>(links: Links<L>, input: bytes)
    ensures Trim(input) == [] <==> ParseText(links, input).Empty?
    ensures Trim(input) != [] && !Oversized(input) ==>
      if GoodLines(links, input) == [] && exists i :: IsWork(AllLines(Pieces(input)), i)
      then ParseText(links, input).AllFailed?
      else ParseText(links, input) == Parsed(GoodLines(links, input))
  {
    if Trim(input) != [] && !Oversized(input) {
      var lines := AllLines(Pieces(input));
      ReadWhole(links, input);
      if Collect(links, lines).0 == [] {
        NoneGood(links, lines);
      }
    }
  }

  lemma NoneGood<L(!new)>(links: Links<L>, lines: seq<bytes>)
    requires Collect(links, lines).0 == []
    ensures Collect(links, lines).1 > 0 <==> exists i :: IsWork(lines, i)
  {
    AllIdle(links, lines);
    WorkOrIdle(lines);
  }

  ghost predicate IsWork(lines: seq<bytes>, i: int) { 0 <= i < |lines| && !IdleLine(lines[i]) }

  lemma WorkOrIdle(lines: seq<bytes>)
    ensures (forall i | 0 <= i < |lines| :: IdleLine(lines[i])) <==> !exists i :: IsWork(lines, i)
  {
    if i :| 0 <= i < |lines| && !IdleLine(lines[i]) {
      assert IsWork(lines, i);
    }
  }

  // ---- what parsing leaves behind ----------------------------------------------------

  /** A configuration that one line of text can carry and that its own raw text parses to. */
  ghost predicate Clean<L(!new)>(links: Links<L>, c: Config<L>) {
    && Trimmed(c.raw) && NEWLINE !in c.raw && |c.raw| < MAX_TOKEN
    && DetectTrimmed(c.raw).Some?
    && ParseSingle(links, c.raw) == Some(c)
  }

  function ConfigsOf<L>(r: Outcome<L>): seq<Config<L>> {
    match r
    case Parsed(configs) => configs
    case TooLong(configs) => configs
    case _ => []
  }

  lemma {:induction false} TrimSubset(s: bytes)
    ensures |Trim(s)| <= |s| && forall c | c in Trim(s) :: c in s
  {
    TrimLeftSubset(s);
  }

  lemma {:induction false} TrimLeftSubset(s: bytes)
    ensures |TrimLeft(s)| <= |s| && forall c | c in TrimLeft(s) :: c in s
  {
    if LeadingSpace(s) > 0 {
      TrimLeftSubset(s[LeadingSpace(s)..]);
    }
  }

  lemma TrimTwice(s: bytes)
    ensures Trim(Trim(s)) == Trim(s)
  {
  }

  lemma SingleIsClean<L(!new)>(links: Links<L>, line: bytes)
    requires NEWLINE !in line && |line| < MAX_TOKEN && ParseSingle(links, line).Some?
    ensures Clean(links, ParseSingle(links, line).value)
  {
    TrimIsTrimmed(line);
    TrimTwice(line);
    TrimSubset(line);
  }

  lemma {:induction false} ScanYields(pieces: seq<bytes>)
    requires forall p | p in pieces :: NEWLINE !in p
    ensures forall line | line in Scan(pieces).0 :: NEWLINE !in line && |line| < MAX_TOKEN
  {
    if !(pieces == [] || pieces == [[]] || |pieces[0]| >= MAX_TOKEN) {
      ScanYields(pieces[1..]);
      assert pieces[0] in pieces;
    }
  }

  lemma {:induction false} CollectIsClean<L(!new)>(links: Links<L>, lines: seq<bytes>)
    requires forall line | line in lines :: NEWLINE !in line && |line| < MAX_TOKEN
    ensures forall c | c in Collect(links, lines).0 :: Clean(links, c)
  {
    if lines != [] {
      CollectIsClean(links, lines[..|lines| - 1]);
      ReadLineClean(links, lines[|lines| - 1]);
    }
  }

  lemma ReadLineClean<L(!new)>(links: Links<L>, text: bytes)
    requires NEWLINE !in text && |text| < MAX_TOKEN
    ensures ReadLine(links, text).Good? ==> Clean(links, ReadLine(links, text).config)
  {
    var line := Trim(text);
    TrimSubset(text);
    if line != [] && ParseSingle(links, line).Some? {
      SingleIsClean(links, line);
    }
  }

  /** Whatever a payload is parsed into fits on a line of its own and parses to itself. */
  lemma ParsedIsClean<L(!new)>(links: Links<L>, input: bytes)
    ensures forall c | c in ConfigsOf(ParseText(links, input)) :: Clean(links, c)
  {
    var text := Unwrap(Trim(input));
    SplitHasNoNewline(text);
    ScanYields(Split(text));
    CollectIsClean(links, Scan(Split(text)).0);
  }

  // ---- publishing and serving --------------------------------------------------------

  function Raws<L>(configs: seq<Config<L>>): (r: seq<bytes>)
    ensures |r| == |configs| && forall i | 0 <= i < |r| :: r[i] == configs[i].raw
  {
    seq(|configs|, i requires 0 <= i < |configs| => configs[i].raw)
  }

  /** The published file: one raw link a line. */
  function Published<L>(configs: seq<Config<L>>): bytes { JoinLines(Raws(configs)) }

  /** The body handleSub answers with. */
  function Served(file: bytes): bytes { Encode(Std, file) }

  lemma CleanShape<L(!new)>(links: Links<L>, c: Config<L>)
    requires Clean(links, c)
    ensures |c.raw| >= 5 && IsLower(c.raw[0]) && c.raw[|c.raw| - 1] != RETURN && Contains(c.raw, SCHEME_END)
  {
    DetectedShowsScheme(c.raw);
    SchemeLetter(c.raw);
  }

  lemma {:induction false} ScanLines(lines: seq<bytes>, end: seq<bytes>)
    requires end == [] || end == [[]]
    requires forall line | line in lines :: line != [] && |line| < MAX_TOKEN && line[|line| - 1] != RETURN
    ensures Scan(lines + end) == (lines, false)
  {
    if lines == [] {
      assert lines + end == end;
    } else {
      var pieces := lines + end;
      assert lines[0] in lines && pieces[0] == lines[0] && pieces[1..] == lines[1..] + end;
      assert pieces != [[]] && DropReturn(lines[0]) == lines[0];
      ScanLines(lines[1..], end);
      assert [lines[0]] + lines[1..] == lines;
    }
  }

  lemma ReadClean<L(!new)>(links: Links<L>, c: Config<L>)
    requires Clean(links, c)
    ensures ReadLine(links, c.raw) == Good(c)
  {
    DetectedShowsScheme(c.raw);
    assert Trim(c.raw) == c.raw;
  }

  lemma {:induction false} CollectRaws<L(!new)>(links: Links<L>, configs: seq<Config<L>>)
    requires forall c | c in configs :: Clean(links, c)
    ensures Collect(links, Raws(configs)) == (configs, 0)
  {
    var n := |configs|;
    if n > 0 {
      assert Raws(configs)[..n - 1] == Raws(configs[..n - 1]);
      CollectRaws(links, configs[..n - 1]);
      var last := configs[n - 1];
      assert last in configs;
      ReadClean(links, last);
      assert configs == configs[..n - 1] + [configs[n - 1]];
    }
  }

  lemma RawsAreLines<L(!new)>(links: Links<L>, configs: seq<Config<L>>)
    requires forall c | c in configs :: Clean(links, c)
    ensures forall line | line in Raws(configs) ::
      NEWLINE !in line && line != [] && |line| < MAX_TOKEN && line[|line| - 1] != RETURN
  {
    forall i | 0 <= i < |configs|
      ensures var line := Raws(configs)[i];
        NEWLINE !in line && line != [] && |line| < MAX_TOKEN && line[|line| - 1] != RETURN
    {
      CleanShape(links, configs[i]);
    }
  }

  /** The lines of the file parse to the configurations, with or without the final newline. */
  lemma LinesRoundTrip<L(!new)>(links: Links<L>, configs: seq<Config<L>>, text: bytes)
    requires configs != [] && forall c | c in configs :: Clean(links, c)
    requires text == Published(configs) || text + [NEWLINE] == Published(configs)
    ensures ParseLines(links, text) == Parsed(configs)
  {
    var raws := Raws(configs);
    RawsAreLines(links, configs);
    PublishedPieces(raws, text);
    ScanLines(raws, if text == JoinLines(raws) then [[]] else []);
    CollectRaws(links, configs);
  }

  lemma PublishedPieces(lines: seq<bytes>, text: bytes)
    requires forall line | line in lines :: NEWLINE !in line
    requires text == JoinLines(lines) || text + [NEWLINE] == JoinLines(lines)
    ensures Split(text) == lines + (if text == JoinLines(lines) then [[]] else [])
  {
    SplitJoinLines(lines);
    if text != JoinLines(lines) {
      SplitAppend(text, []);
      assert text + [NEWLINE] + [] == text + [NEWLINE];
      assert Split(text) + [[]] == lines + [[]];
      assert Split(text) == (Split(text) + [[]])[..|lines|];
    }
  }

  lemma FileShape<L(!new)>(links: Links<L>, configs: seq<Config<L>>)
    requires configs != [] && forall c | c in configs :: Clean(links, c)
    ensures var file := Published(configs);
      file != [] && file == file[..|file| - 1] + [NEWLINE]
      && Trimmed(file[..|file| - 1]) && Contains(file[..|file| - 1], SCHEME_END)
  {
    var raws, file, n := Raws(configs), Published(configs), |configs|;
    CleanShape(links, configs[0]);
    CleanShape(links, configs[n - 1]);
    JoinLinesEnds(raws);
    var front, last := JoinLines(raws[..n - 1]), raws[n - 1];
    assert file[..|file| - 1] == front + last;
    JoinLinesStarts(raws);
    TrimmedEnds(front, last);
    ContainsLater(front, last, SCHEME_END);
  }

  lemma JoinLinesStarts(lines: seq<bytes>)
    requires lines != [] && lines[0] != []
    ensures JoinLines(lines) != [] && JoinLines(lines)[0] == lines[0][0]
  {
  }

  /** Whether a text is trimmed shows at its ends. */
  lemma TrimmedEnds(front: bytes, last: bytes)
    requires |last| >= 3 && TrailingSpace(last) == 0 && IsLower((front + last)[0])
    ensures Trimmed(front + last)
  {
  }

  lemma {:induction false} ContainsLater(x: bytes, s: bytes, a: bytes)
    requires Contains(s, a)
    ensures Contains(x + s, a)
  {
    if x == [] {
      assert x + s == s;
    } else {
      assert (x + s)[1..] == x[1..] + s;
      ContainsLater(x[1..], s, a);
    }
  }

  predicate BodyText(s: bytes) { forall i | 0 <= i < |s| :: IsBase64Char(s[i]) || s[i] == EQUALS }

  lemma BodyTrimmed(s: bytes)
    requires BodyText(s)
    ensures Trimmed(s) && StripWrap(s) == s
  {
  }

  lemma BodyLooksEncoded(s: bytes)
    requires BodyText(s) && s != []
    ensures IsBase64Encoded(s)
  {
    if Contains(s, SCHEME_END) {
      ContainsNeeds(s, SCHEME_END, COLON);
    }
  }

  lemma ServedShape(file: bytes)
    requires file != []
    ensures Served(file) != [] && BodyText(Served(file))
  {
  }

  lemma {:induction false} StripWrapAppend(a: bytes, b: bytes)
    ensures StripWrap(a + b) == StripWrap(a) + StripWrap(b)
  {
    if a == [] {
      assert a + b == b;
    } else {
      assert (a + b)[1..] == a[1..] + b;
      StripWrapAppend(a[1..], b);
    }
  }

  /** Spaces, tabs and line breaks are taken out wherever they are, and nothing else. */
  lemma StripWrapAt(a: bytes, c: byte, b: bytes)
    ensures StripWrap(a + [c] + b) == StripWrap(a)
      + (if c == ' ' as int || c == '\t' as int || c == '\n' as int || c == '\r' as int then [] else [c])
      + StripWrap(b)
    ensures StripWrap([]) == []
  {
    StripWrapAppend(a + [c], b);
    StripWrapAppend(a, [c]);
    assert StripWrap([c]) == (if IsWrapSpace(c) then [] else [c]) + StripWrap([c][1..]);
  }

  lemma {:induction false} StripWrapMembers(s: bytes)
    ensures forall c | c in s :: IsWrapSpace(c) || c in StripWrap(s)
  {
    if s != [] {
      StripWrapMembers(s[1..]);
      assert s == [s[0]] + s[1..];
    }
  }

  /** A body that is wrapped, with white space anywhere, is still the text it encodes. */
  lemma WrappedBody(body: bytes, file: bytes)
    requires file != [] && StripWrap(body) == Encode(Std, file)
    ensures Unwrap(body) == file
  {
    ServedShape(file);
    StripWrapMembers(body);
    assert forall c | c in body :: IsWrapSpace(c) || c in StripWrap(body);
    assert COLON !in body;
    if Contains(body, SCHEME_END) {
      ContainsNeeds(body, SCHEME_END, COLON);
    }
    DecodeEncode(Std, file);
  }

  lemma {:induction false} StripWrapNothing(s: bytes)
    requires forall c | c in s :: !IsWrapSpace(c)
    ensures StripWrap(s) == s
  {
    if s != [] {
      StripWrapNothing(s[1..]);
    }
  }

  /** Serve, then parse: the plain file and the base64 body both give back exactly the published
      configurations, in order, for every non-empty list that came out of a parse. */
  lemma ServeParseRoundTrip<L(!new)>(links: Links<L>, configs: seq<Config<L>>)
    requires configs != [] && forall c | c in configs :: Clean(links, c)
    ensures ParseText(links, Published(configs)) == Parsed(configs)
    ensures ParseText(links, Served(Published(configs))) == Parsed(configs)
  {
    var file := Published(configs);
    FileShape(links, configs);
    var text := file[..|file| - 1];
    TrimDropsNewline(text);
    LinesRoundTrip(links, configs, text);
    LinesRoundTrip(links, configs, file);
    ServedShape(file);
    BodyTrimmed(Served(file));
    BodyLooksEncoded(Served(file));
    DecodeEncode(Std, file);
  }

  /** The hash keys under which a parsed list is filed are those of its raw links. */
  function KeysOf<L>(hash: bytes -> bytes, configs: seq<Config<L>>): set<bytes> {
    set raw | raw in Raws(configs) :: hash(raw)
  }

  lemma ServedKeys<L(!new)>(links: Links<L>, hash: bytes -> bytes, configs: seq<Config<L>>)
    requires configs != [] && forall c | c in configs :: Clean(links, c)
    ensures KeysOf(hash, ConfigsOf(ParseText(links, Served(Published(configs))))) == KeysOf(hash, configs)
  {
    ServeParseRoundTrip(links, configs);
  }

  /** A second daemon fed from this one's endpoint files the links under the same keys. */
  lemma SameKeys<L(!new)>(links: Links<L>, hash: bytes -> bytes, input: bytes)
    requires ConfigsOf(ParseText(links, input)) != []
    ensures var configs := ConfigsOf(ParseText(links, input));
      KeysOf(hash, ConfigsOf(ParseText(links, Served(Published(configs))))) == KeysOf(hash, configs)
  {
    var configs := ConfigsOf(ParseText(links, input));
    ParsedIsClean(links, input);
    ServedKeys(links, hash, configs);
  }
}
