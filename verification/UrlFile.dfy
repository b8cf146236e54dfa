/** The subscription URL list kept in a text file: LoadURLs of internal/daemon/fetcher.go and the
    three HTTP edits of internal/daemon/http.go. The URL validator is a parameter; JSON decoding
    has already happened (None is a body that did not decode). */
module UrlFile {
  import opened Bytes
  import opened Options

  // ---- reading -----------------------------------------------------------------------

  /** What one line contributes: nothing when it is blank or a comment. */
  function KeepLine(text: bytes): (r: seq<bytes>)
    ensures |r| <= 1
  {
    var line := Trim(text);
    if line == [] || line[0] == HASH then [] else [line]
  }

  function Keep(lines: seq<bytes>): seq<bytes> {
    if lines == [] then [] else Keep(lines[..|lines| - 1]) + KeepLine(lines[|lines| - 1])
  }

  function LoadedFrom(file: bytes): seq<bytes> { Keep(Split(file)) }

  lemma KeepNext(lines: seq<bytes>, i: nat)
    requires i < |lines|
    ensures Keep(lines[..i + 1]) == Keep(lines[..i]) + KeepLine(lines[i])
  {
    assert lines[..i + 1][..i] == lines[..i];
  }

  lemma KeptWhen(text: bytes, line: bytes)
    requires line == Trim(text)
    ensures KeepLine(text) == if line == [] || line[0] == HASH then [] else [line]
  {
  }

  method LoadURLs(file: bytes) returns (urls: seq<bytes>)
    ensures urls == LoadedFrom(file)
  {
    urls := [];
    var lines := Split(file);
    for i := 0 to |lines|
      invariant urls == Keep(lines[..i])
    {
      KeepNext(lines, i);
      var line := Trim(lines[i]);
      KeptWhen(lines[i], line);
      if line != [] && line[0] != HASH {
        urls := urls + [line];
      }
    }
    assert lines[..|lines|] == lines;
  }

  /** A line LoadURLs gives back as it is. */
  predicate Listed(u: bytes) { Trimmed(u) && u != [] && u[0] != HASH && NEWLINE !in u }

  lemma {:induction false} KeepAppend(a: seq<bytes>, b: seq<bytes>)
    ensures Keep(a + b) == Keep(a) + Keep(b)
  {
    if b == [] {
      assert a + b == a;
    } else {
      var n := |b| - 1;
      assert (a + b)[..|a + b| - 1] == a + b[..n];
      KeepAppend(a, b[..n]);
    }
  }

  lemma KeepOne(u: bytes)
    requires Listed(u)
    ensures KeepLine(u) == [u]
  {
  }

  lemma KeepStep(front: seq<bytes>, last: bytes)
    requires Keep(front) == front && KeepLine(last) == [last]
    ensures Keep(front + [last]) == front + [last]
  {
    assert (front + [last])[..|front|] == front;
  }

  predicate KeepsItself(line: bytes) { KeepLine(line) == [line] }

  lemma {:induction false} KeepEach(lines: seq<bytes>)
    requires forall i | 0 <= i < |lines| :: KeepsItself(lines[i])
    ensures Keep(lines) == lines
  {
    if lines != [] {
      var front, last := lines[..|lines| - 1], lines[|lines| - 1];
      KeepEach(front);
      KeepStep(front, last);
      assert lines == front + [last];
    }
  }

  lemma KeepListed(lines: seq<bytes>)
    requires forall i | 0 <= i < |lines| :: Listed(lines[i])
    ensures Keep(lines) == lines
  {
    forall i | 0 <= i < |lines| ensures KeepsItself(lines[i]) {
      KeepOne(lines[i]);
    }
    KeepEach(lines);
  }

  lemma {:induction false} TrimNoNewline(s: bytes)
    requires NEWLINE !in s
    ensures NEWLINE !in TrimLeft(s) && NEWLINE !in Trim(s)
  {
    if LeadingSpace(s) > 0 {
      TrimNoNewline(s[LeadingSpace(s)..]);
    }
  }

  lemma {:induction false} KeepIsListed(lines: seq<bytes>)
    requires forall line | line in lines :: NEWLINE !in line
    ensures forall u | u in Keep(lines) :: Listed(u)
  {
    if lines != [] {
      KeepIsListed(lines[..|lines| - 1]);
      var last := lines[|lines| - 1];
      assert last in lines;
      TrimNoNewline(last);
      TrimIsTrimmed(last);
    }
  }

  lemma LoadedIsListed(file: bytes)
    ensures forall u | u in LoadedFrom(file) :: Listed(u)
  {
    SplitHasNoNewline(file);
    KeepIsListed(Split(file));
  }

  /** Writing a list out, one a line, and loading it gives the list back. */
  lemma Reload(urls: seq<bytes>)
    requires forall u | u in urls :: Listed(u)
    ensures LoadedFrom(JoinLines(urls)) == urls
  {
    SplitJoinLines(urls);
    KeepAppend(urls, [[]]);
    KeepListed(urls);
    assert Keep([[]]) == [];
  }

  // ---- appending ---------------------------------------------------------------------

  type Validator = bytes -> bool

  predicate IsLetterH(c: byte) { c == 104 || c == 72 }

  /** What net/url guarantees of an accepted subscription URL: it starts with its scheme (http or
      https, in any case), and holds no newline. */
  ghost predicate RejectsGarbage(valid: Validator) {
    forall u :: valid(u) ==> u != [] && IsLetterH(u[0]) && NEWLINE !in u
  }

  function LastLine(file: bytes): bytes { var lines := Split(file); lines[|lines| - 1] }

  /** Empty, or ended by a newline. */
  predicate WellEnded(file: bytes) { file == [] || file[|file| - 1] == NEWLINE }

  lemma {:induction false} SplitExtend(f: bytes, u: bytes)
    requires NEWLINE !in u
    ensures var lines := Split(f); Split(f + u) == lines[..|lines| - 1] + [LastLine(f) + u]
  {
    if f == [] {
      assert f + u == u;
      SplitOneLine(u);
    } else {
      assert (f + u)[1..] == f[1..] + u;
      SplitExtend(f[1..], u);
      if f[0] != NEWLINE && |Split(f[1..])| == 1 {
        assert [f[0]] + (Split(f[1..])[0] + u) == [f[0]] + Split(f[1..])[0] + u;
      }
    }
  }

  lemma WellEndedLastLine(file: bytes)
    requires WellEnded(file)
    ensures LastLine(file) == []
  {
    if file != [] {
      var front := file[..|file| - 1];
      assert file == front + [NEWLINE] + [];
      SplitAppend(front, []);
    }
  }

  lemma LoadedParts(f: bytes, u: bytes)
    requires NEWLINE !in u
    ensures var lines := Split(f); var front := Keep(lines[..|lines| - 1]);
      && LoadedFrom(f) == front + KeepLine(LastLine(f))
      && LoadedFrom(f + u + [NEWLINE]) == front + KeepLine(LastLine(f) + u)
  {
    SplitExtend(f, u);
    SplitAppend(f + u, []);
    assert f + u + [NEWLINE] + [] == f + u + [NEWLINE];
    KeepAppend(Split(f + u), [[]]);
    assert Keep([[]]) == [];
  }

  /** Trimming a text that starts with a letter keeps its first byte. */
  lemma TrimKeepsFirst(m: bytes)
    requires m != [] && LeadingSpace(m) == 0
    ensures Trim(m) != [] && Trim(m)[0] == m[0]
  {
    if TrimRight(m) == [] {
      BlankFromRight(m);
    }
  }

  /** A letter does not complete a multi-byte space. */
  lemma NoSpaceMade(l: bytes, u: bytes)
    requires l != [] && LeadingSpace(l) == 0 && u != [] && IsLetterH(u[0])
    ensures LeadingSpace(l + u) == 0
  {
    var s := l + u;
    assert s[0] == l[0] && s[|l|] == u[0];
    assert |l| >= 2 ==> s[1] == l[1];
    assert |l| >= 3 ==> s[2] == l[2];
  }

  lemma {:induction false} TrimLeftKeeps(l: bytes, u: bytes)
    requires TrimLeft(l) != [] && u != [] && IsLetterH(u[0])
    ensures TrimLeft(l + u) == TrimLeft(l) + u
  {
    var n := LeadingSpace(l);
    if n > 0 {
      assert (l + u)[..|l|] == l;
      LeadingSpaceOfPrefix(l + u, |l|);
      DropAppend(l, u, n);
      TrimLeftKeeps(l[n..], u);
    } else {
      NoSpaceMade(l, u);
    }
  }

  /** A URL glued to the last line is listed by itself exactly when that line is blank. */
  lemma GluedLine(l: bytes, u: bytes)
    requires u != [] && IsLetterH(u[0])
    ensures KeepLine(l + u) == KeepLine(l) + [Trim(u)] <==> Trim(l) == []
  {
    TrimKeepsFirst(u);
    if Trim(l) == [] {
      BlankFromLeft(l);
      TrimLeftSkips(l, u);
    } else {
      var m := TrimLeft(l);
      TrimKeepsFirst(m);
      TrimLeftKeeps(l, u);
      assert (m + u)[0] == m[0] && LeadingSpace(m + u) == 0;
      TrimKeepsFirst(m + u);
    }
  }

  /** Comparing two lists with a common front. */
  lemma SameBehind(front: seq<bytes>, before: seq<bytes>, after: seq<bytes>, more: seq<bytes>)
    ensures front + after == front + before + more <==> after == before + more
  {
    assert (front + after)[|front|..] == after;
    assert (front + before + more)[|front|..] == before + more;
    assert front + before + more == front + (before + more);
  }

  /** A POST appends its URL to the list exactly when the file's last line is blank. */
  lemma PostAppendsIff(valid: Validator, f: bytes, u: bytes)
    requires RejectsGarbage(valid) && valid(u)
    ensures LoadedFrom(f + u + [NEWLINE]) == LoadedFrom(f) + [Trim(u)] <==> Trim(LastLine(f)) == []
  {
    var last := LastLine(f);
    LoadedParts(f, u);
    GluedLine(last, u);
    SameBehind(Keep(Split(f)[..|Split(f)| - 1]), KeepLine(last), KeepLine(last + u), [Trim(u)]);
  }

  lemma LoadedAlone(line: bytes)
    requires line != [] && IsLower(line[0]) && IsLower(line[|line| - 1])
    ensures Keep([line]) == [line]
  {
    LetterEnds(line);
    assert [line][..0] == [];
  }

  // ---- the edits ---------------------------------------------------------------------

  datatype Edit = Post(url: Option<bytes>) | Put(urls: Option<seq<bytes>>) | Delete(id: Option<int>)

  /** The file, None while it does not exist. */
  type File = Option<bytes>

  function ListOf(file: File): seq<bytes> { if file.None? then [] else LoadedFrom(file.value) }

  predicate AllValid(valid: Validator, urls: seq<bytes>) { forall u | u in urls :: valid(u) }

  /** The plain-list reading of an edit: append, replace all or nothing, remove by position. */
  function EditList(valid: Validator, list: seq<bytes>, e: Edit): seq<bytes> {
    match e
    case Post(Some(u)) => if valid(u) then list + [Trim(u)] else list
    case Put(Some(urls)) => if AllValid(valid, Keep(urls)) then Keep(urls) else list
    case Delete(Some(id)) => if 1 <= id <= |list| then list[..id - 1] + list[id..] else list
    case _ => list
  }

  /** The file after an edit. */
  function EditFile(valid: Validator, file: File, e: Edit): File {
    match e
    case Post(Some(u)) =>
      if u != [] && valid(u) then Some((if file.None? then [] else file.value) + u + [NEWLINE]) else file
    case Put(Some(urls)) => if AllValid(valid, Keep(urls)) then Some(JoinLines(Keep(urls))) else file
    case Delete(Some(id)) =>
      var list := ListOf(file);
      if file.Some? && 1 <= id <= |list| then Some(JoinLines(list[..id - 1] + list[id..])) else file
    case _ => file
  }

  /** "x", and "http://a". */
  const X: bytes := [120]
  const U: bytes := [104, 116, 116, 112, COLON, SLASH, SLASH, 97]

  lemma LoadedOneLine(line: bytes)
    requires line != [] && IsLower(line[0]) && IsLower(line[|line| - 1]) && NEWLINE !in line
    ensures LoadedFrom(line) == [line] && LoadedFrom(line + [NEWLINE]) == [line]
  {
    SplitOneLine(line);
    LoadedAlone(line);
    SplitAppend(line, []);
    assert line + [NEWLINE] + [] == line + [NEWLINE];
    KeepAppend([line], [[]]);
    assert Keep([[]]) == [];
  }

  /** A POST of "http://a" to a file that holds "x" without a newline: the list should grow by the
      URL, but the two end up on one line. */
  lemma PostCanGlue(valid: Validator)
    requires valid(U)
    ensures ListOf(Some(X)) == [X] && EditList(valid, [X], Post(Some(U))) == [X, U]
    ensures ListOf(EditFile(valid, Some(X), Post(Some(U)))) == [X + U]
  {
    LetterEnds(U);
    LoadedOneLine(X);
    LoadedOneLine(X + U);
  }

  predicate FileEnded(file: File) { file.None? || WellEnded(file.value) }

  lemma {:induction false} ValidIsListed(valid: Validator, lines: seq<bytes>)
    requires RejectsGarbage(valid) && AllValid(valid, Keep(lines))
    ensures forall u | u in Keep(lines) :: Listed(u)
  {
    if lines != [] {
      var front, last := lines[..|lines| - 1], lines[|lines| - 1];
      assert forall u | u in Keep(front) :: u in Keep(lines);
      ValidIsListed(valid, front);
      TrimIsTrimmed(last);
      if KeepLine(last) != [] {
        assert Trim(last) in Keep(lines);
      }
    }
  }

  lemma JoinedWellEnded(urls: seq<bytes>)
    ensures WellEnded(JoinLines(urls))
  {
  }

  lemma PostRefines(valid: Validator, file: File, u: bytes)
    requires RejectsGarbage(valid) && FileEnded(file) && valid(u)
    ensures var after := (if file.None? then [] else file.value) + u + [NEWLINE];
      WellEnded(after) && LoadedFrom(after) == ListOf(file) + [Trim(u)]
  {
    var f := if file.None? then [] else file.value;
    WellEndedLastLine(f);
    PostAppendsIff(valid, f, u);
    assert LoadedFrom([]) == [];
  }

  lemma RewriteRefines(urls: seq<bytes>)
    requires forall u | u in urls :: Listed(u)
    ensures WellEnded(JoinLines(urls)) && LoadedFrom(JoinLines(urls)) == urls
  {
    Reload(urls);
    JoinedWellEnded(urls);
  }

  lemma PutRefines(valid: Validator, urls: seq<bytes>)
    requires RejectsGarbage(valid) && AllValid(valid, Keep(urls))
    ensures var file := JoinLines(Keep(urls)); WellEnded(file) && LoadedFrom(file) == Keep(urls)
  {
    ValidIsListed(valid, urls);
    RewriteRefines(Keep(urls));
  }

  lemma DeletedIsListed(f: bytes, id: int)
    requires 1 <= id <= |LoadedFrom(f)|
    ensures forall u | u in LoadedFrom(f)[..id - 1] + LoadedFrom(f)[id..] :: Listed(u)
  {
    LoadedIsListed(f);
  }

  lemma DeleteRefines(f: bytes, id: int)
    requires 1 <= id <= |LoadedFrom(f)|
    ensures var list := LoadedFrom(f)[..id - 1] + LoadedFrom(f)[id..];
      WellEnded(JoinLines(list)) && LoadedFrom(JoinLines(list)) == list
  {
    DeletedIsListed(f, id);
    RewriteRefines(LoadedFrom(f)[..id - 1] + LoadedFrom(f)[id..]);
  }

  /** The edit of the file is the edit of the list it holds. */
  ghost predicate Refines(valid: Validator, file: File, e: Edit) {
    && FileEnded(EditFile(valid, file, e))
    && ListOf(EditFile(valid, file, e)) == EditList(valid, ListOf(file), e)
  }

  lemma PostCase(valid: Validator, file: File, u: bytes)
    requires RejectsGarbage(valid) && FileEnded(file)
    ensures Refines(valid, file, Post(Some(u)))
  {
    if valid(u) {
      PostRefines(valid, file, u);
    }
  }

  lemma PutCase(valid: Validator, file: File, urls: seq<bytes>)
    requires RejectsGarbage(valid) && FileEnded(file)
    ensures Refines(valid, file, Put(Some(urls)))
  {
    var kept := Keep(urls);
    if AllValid(valid, kept) {
      PutRefines(valid, urls);
      assert EditFile(valid, file, Put(Some(urls))) == Some(JoinLines(kept));
      assert EditList(valid, ListOf(file), Put(Some(urls))) == kept;
    }
  }

  lemma DeleteCase(valid: Validator, file: File, id: int)
    requires FileEnded(file)
    ensures Refines(valid, file, Delete(Some(id)))
  {
    if file.Some? && 1 <= id <= |ListOf(file)| {
      DeleteRefines(file.value, id);
    }
  }

  /** One edit of a well-ended file is the edit of the list it holds. */
  lemma EditRefines(valid: Validator, file: File, e: Edit)
    requires RejectsGarbage(valid) && FileEnded(file)
    ensures FileEnded(EditFile(valid, file, e))
    ensures ListOf(EditFile(valid, file, e)) == EditList(valid, ListOf(file), e)
  {
    match e {
      case Post(Some(u)) => PostCase(valid, file, u);
      case Put(Some(urls)) => PutCase(valid, file, urls);
      case Delete(Some(id)) => DeleteCase(valid, file, id);
      case _ =>
    }
    assert Refines(valid, file, e);
  }

  // ---- the edits one by one ----------------------------------------------------------

  /** A POST of a valid URL to a file that ends well adds it, trimmed, behind all others; any other
      POST leaves the file alone. */
  lemma PostAdds(valid: Validator, file: File, body: Option<bytes>)
    requires RejectsGarbage(valid) && FileEnded(file)
    ensures var after := EditFile(valid, file, Post(body)); var l, r := ListOf(file), ListOf(after);
      if body.Some? && valid(body.value)
      then |r| == |l| + 1 && r[|l|] == Trim(body.value) && forall j | 0 <= j < |l| :: r[j] == l[j]
      else after == file
  {
    if body.Some? && valid(body.value) {
      PostRefines(valid, file, body.value);
    }
  }

  /** The line may be part of a PUT: blank, a comment, or a valid URL. */
  predicate Admissible(valid: Validator, line: bytes) {
    Trim(line) == [] || Trim(line)[0] == '#' as int || valid(Trim(line))
  }

  lemma AllAdmissible(valid: Validator, lines: seq<bytes>)
    ensures AllValid(valid, Keep(lines)) <==> forall i | 0 <= i < |lines| :: Admissible(valid, lines[i])
  {
    KeptIff(lines);
    if AllValid(valid, Keep(lines)) {
      forall i | 0 <= i < |lines| ensures Admissible(valid, lines[i]) {
        assert lines[i] in lines;
      }
    }
  }

  /** A PUT of admissible lines makes those that are kept the list, in their order; with one other line
      among them the file stays. */
  lemma PutReplaces(valid: Validator, file: File, urls: seq<bytes>)
    requires RejectsGarbage(valid)
    ensures (forall i | 0 <= i < |urls| :: Admissible(valid, urls[i])) ==>
      ListOf(EditFile(valid, file, Put(Some(urls)))) == Keep(urls)
    ensures !(forall i | 0 <= i < |urls| :: Admissible(valid, urls[i])) ==>
      EditFile(valid, file, Put(Some(urls))) == file
  {
    AllAdmissible(valid, urls);
    if AllValid(valid, Keep(urls)) {
      PutRefines(valid, urls);
    }
  }

  /** The kept lines are the trimmed ones that are neither blank nor comments. */
  lemma {:induction false} KeptIff(lines: seq<bytes>)
    ensures forall line | line in lines && Trim(line) != [] && Trim(line)[0] != '#' as int ::
      Trim(line) in Keep(lines)
    ensures forall u | u in Keep(lines) ::
      u != [] && u[0] != '#' as int && exists line :: line in lines && Trim(line) == u
  {
    if lines != [] {
      var front, last := lines[..|lines| - 1], lines[|lines| - 1];
      KeptIff(front);
      assert lines == front + [last];
    }
  }

  /** r is l without the element at the position, counted from one. */
  ghost predicate OneOut(l: seq<bytes>, r: seq<bytes>, id: int) {
    && 1 <= id <= |l| && |r| == |l| - 1
    && (forall j | 0 <= j < id - 1 :: r[j] == l[j])
    && (forall j | id - 1 <= j < |r| :: r[j] == l[j + 1])
  }

  lemma CutOut(l: seq<bytes>, id: int)
    requires 1 <= id <= |l|
    ensures OneOut(l, l[..id - 1] + l[id..], id)
  {
  }

  /** A DELETE with a position of the list takes out the URL there and nothing else; with any other
      number, or without a file, nothing changes. */
  lemma DeleteRemoves(valid: Validator, file: File, id: int)
    ensures 1 <= id <= |ListOf(file)| ==> OneOut(ListOf(file), ListOf(EditFile(valid, file, Delete(Some(id)))), id)
    ensures !(1 <= id <= |ListOf(file)|) ==> EditFile(valid, file, Delete(Some(id))) == file
  {
    var l := ListOf(file);
    if 1 <= id <= |l| {
      CutOut(l, id);
      DeleteRefines(file.value, id);
    }
  }

  /** Every history of edits: the file, and the list it should hold. */
  function Run(valid: Validator, file: File, list: seq<bytes>, edits: seq<Edit>): (File, seq<bytes>)
    decreases |edits|
  {
    if edits == [] then (file, list)
    else
      var (f, l) := Run(valid, file, list, edits[..|edits| - 1]);
      (EditFile(valid, f, edits[|edits| - 1]), EditList(valid, l, edits[|edits| - 1]))
  }

  /** Every history of edits of a well-ended file is that history of its list. */
  lemma {:induction false} HistoryRefines(valid: Validator, file: File, edits: seq<Edit>)
    requires RejectsGarbage(valid) && FileEnded(file)
    ensures var (f, list) := Run(valid, file, ListOf(file), edits); FileEnded(f) && ListOf(f) == list
    decreases |edits|
  {
    if edits != [] {
      HistoryRefines(valid, file, edits[..|edits| - 1]);
      EditRefines(valid, Run(valid, file, ListOf(file), edits[..|edits| - 1]).0, edits[|edits| - 1]);
    }
  }

  // ---- the handlers ------------------------------------------------------------------

  class UrlStore {
    var file: File

    constructor (file: File)
      ensures this.file == file
    {
      this.file := file;
    }

    method AddURL(body: Option<bytes>, valid: Validator) returns (status: int)
      modifies this
      ensures file == EditFile(valid, old(file), Post(body))
      ensures status == if body.Some? && body.value != [] && valid(body.value) then 201 else 400
    {
      if body.None? || body.value == [] || !valid(body.value) {
        return 400;
      }
      var before := if file.None? then [] else file.value;
      file := Some(before + body.value + [NEWLINE]);
      return 201;
    }

    method ReplaceURLs(body: Option<seq<bytes>>, valid: Validator) returns (status: int)
      modifies this
      ensures file == EditFile(valid, old(file), Put(body))
      ensures status == if body.Some? && AllValid(valid, Keep(body.value)) then 200 else 400
    {
      if body.None? {
        return 400;
      }
      var urls := body.value;
      var good: seq<bytes>, bad: seq<bytes> := [], [];
      for i := 0 to |urls|
        invariant bad == [] <==> AllValid(valid, Keep(urls[..i]))
        invariant bad == [] ==> good == Keep(urls[..i])
        invariant file == old(file)
      {
        KeepNext(urls, i);
        var line := Trim(urls[i]);
        KeptWhen(urls[i], line);
        if line != [] && line[0] != HASH {
          assert line in Keep(urls[..i + 1]);
          if !valid(line) {
            bad := bad + [line];
          } else {
            good := good + [line];
          }
        }
      }
      assert urls[..|urls|] == urls;
      if bad != [] {
        return 400;
      }
      file := Some(JoinLines(good));
      return 200;
    }

    method DeleteURL(id: Option<int>, valid: Validator) returns (status: int)
      modifies this
      ensures file == EditFile(valid, old(file), Delete(id))
      ensures status == if id.None? then 400 else if old(file).None? then 500
        else if 1 <= id.value <= |ListOf(old(file))| then 200 else 404
    {
      if id.None? {
        return 400;
      }
      if file.None? {
        return 500;
      }
      var urls := LoadURLs(file.value);
      var k := id.value;
      if k < 1 || k > |urls| {
        return 404;
      }
      urls := urls[..k - 1] + urls[k..];
      file := Some(JoinLines(urls));
      return 200;
    }
  }
}
