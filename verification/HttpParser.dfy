/**
 * Request parsing (src/components/http_parser.c): the request line, the scan for the Host
 * header, printing the request line back, and the host:port split.
 */
module HttpParser {
  import opened CText
  import opened Wrappers

  // ---------------------------------------------------------------- the request line

  datatype RequestLine = RequestLine(verb: Option<string>, path: Option<string>, version: Option<string>)

  // The first three words of a line; once a word is missing so are the later ones.
  function ReadRequestLine(line: string): RequestLine {
    var (verb, p) := StrTok(line, 0);
    var (path, q) := StrTok(line, p);
    var (version, _) := StrTok(line, q);
    RequestLine(verb, path, version)
  }

  function OrElse(word: Option<string>, default: string): string {
    if word.Some? then word.value else default
  }

  function FirstOf(a: Option<string>, b: Option<string>): Option<string> {
    if a.Some? then a else b
  }

  function WithDefaults(r: RequestLine): RequestLine {
    RequestLine(Some(OrElse(r.verb, "GET")), Some(OrElse(r.path, "/")), Some(OrElse(r.version, "HTTP/1.1")))
  }

  // What ParsedRequest_unparse_headers prints, given room.
  function PrintRequestLine(r: RequestLine): string {
    (OrElse(r.verb, "GET") + " " + OrElse(r.path, "/") + " " + OrElse(r.version, "HTTP/1.1")) + (CRLF + CRLF)
  }

  // snprintf into a buffer of `room` bytes.
  function Printed(text: string, room: nat): string {
    if room == 0 then "" else if |text| < room then text else text[..room - 1]
  }

  predicate BreakAt(s: string, k: int) {
    0 <= k < |s| - 1 && s[k] == '\r' && s[k + 1] == '\n'
  }

  lemma BreakIsMatch(s: string, k: nat)
    ensures MatchAt(s, k, CRLF) <==> BreakAt(s, k)
  {
    if BreakAt(s, k) {
      assert forall i :: 0 <= i < 2 ==> s[k + i] == CRLF[i];
    }
    if MatchAt(s, k, CRLF) {
      assert s[k + 0] == CRLF[0] && s[k + 1] == CRLF[1];
    }
  }

  // No CRLF and no NUL: such text survives as one line.
  ghost predicate OneLine(s: string) {
    && (forall i :: 0 <= i < |s| ==> s[i] != NUL)
    && (forall i {:trigger BreakAt(s, i)} :: !BreakAt(s, i))
  }

  // The first CRLF from `pos` on is at k, and no NUL comes before it.
  ghost predicate LineEnd(buf: string, pos: nat, k: nat) {
    && pos <= k && BreakAt(buf, k)
    && (forall j :: pos <= j < k ==> buf[j] != NUL)
    && (forall j {:trigger BreakAt(buf, j)} :: pos <= j < k ==> !BreakAt(buf, j))
  }

  lemma FindsLineEnd(buf: string, pos: nat, k: nat)
    ensures LineEnd(buf, pos, k) <==> StrStr(buf, pos, CRLF) == Some(k)
  {
    forall j: nat
      ensures MatchAt(buf, j, CRLF) <==> BreakAt(buf, j)
    {
      BreakIsMatch(buf, j);
    }
    if LineEnd(buf, pos, k) {
      StrStrIs(buf, pos, CRLF, k);
    }
  }

  lemma LineStands(buf: string, p: nat, s: string)
    requires OneLine(s) && BreakAt(buf, p + |s|)
    requires forall i :: 0 <= i < |s| ==> buf[p + i] == s[i]
    ensures StrStr(buf, p, CRLF) == Some(p + |s|)
  {
    forall j | p <= j < p + |s|
      ensures buf[j] != NUL && !BreakAt(buf, j)
    {
      assert buf[p + (j - p)] == s[j - p] && !BreakAt(s, j - p);
      assert j + 1 < p + |s| ==> buf[p + (j + 1 - p)] == s[j + 1 - p];
    }
    FindsLineEnd(buf, p, p + |s|);
  }

  lemma FoundLineIsOneLine(buf: string, pos: nat)
    requires StrStr(buf, pos, CRLF).Some?
    ensures OneLine(buf[pos..StrStr(buf, pos, CRLF).value])
  {
    var k := StrStr(buf, pos, CRLF).value;
    FindsLineEnd(buf, pos, k);
    var s := buf[pos..k];
    forall i | 0 <= i < |s|
      ensures s[i] != NUL && !BreakAt(s, i)
    {
      assert s[i] == buf[pos + i] && !BreakAt(buf, pos + i);
      assert i + 1 < |s| ==> s[i + 1] == buf[pos + i + 1];
    }
  }

  lemma PieceIsOneLine(s: string, i: nat, j: nat)
    requires OneLine(s) && i <= j <= |s|
    ensures OneLine(s[i..j])
  {
    var t := s[i..j];
    forall k | 0 <= k < |t|
      ensures t[k] != NUL && !BreakAt(t, k)
    {
      assert t[k] == s[i + k] && !BreakAt(s, i + k);
      assert k + 1 < |t| ==> t[k + 1] == s[i + k + 1];
    }
  }

  lemma JoinedIsOneLine(a: string, b: string)
    requires OneLine(a) && OneLine(b)
    ensures OneLine(a + " " + b)
  {
    var s := a + " " + b;
    assert s[|a|] == ' ';
    assert forall k :: 0 <= k < |a| ==> s[k] == a[k];
    assert forall k :: |a| < k < |s| ==> s[k] == b[k - |a| - 1];
    forall k | 0 <= k < |s|
      ensures !BreakAt(s, k)
    {
      assert !BreakAt(a, k) && !BreakAt(b, k - |a| - 1);
    }
  }

  ghost predicate WordOk(word: string) {
    word != "" && ' ' !in word && OneLine(word)
  }

  lemma TokenOk(line: string, pos: nat)
    requires OneLine(line) && pos <= |line|
    ensures StrTok(line, pos).0.Some? ==> WordOk(StrTok(line, pos).0.value)
  {
    var start := SkipSpaces(line, pos);
    if start < |line| {
      PieceIsOneLine(line, start, StrChrFrom(line, ' ', start));
    }
  }

  ghost predicate LineOk(r: RequestLine) {
    && (r.verb.Some? ==> WordOk(r.verb.value))
    && (r.path.Some? ==> WordOk(r.path.value))
    && (r.version.Some? ==> WordOk(r.version.value))
  }

  lemma ReadIsOk(line: string)
    requires OneLine(line)
    ensures LineOk(ReadRequestLine(line))
  {
    TokenOk(line, 0);
    TokenOk(line, StrTok(line, 0).1);
    TokenOk(line, StrTok(line, StrTok(line, 0).1).1);
  }

  lemma NoReturnIsOneLine(s: string)
    requires '\r' !in s && NUL !in s
    ensures OneLine(s)
  {
  }

  lemma DefaultsOk()
    ensures WordOk("GET") && WordOk("/") && WordOk("HTTP/1.1")
  {
    NoReturnIsOneLine("GET");
    NoReturnIsOneLine("/");
    NoReturnIsOneLine("HTTP/1.1");
  }

  lemma ReadThreeWords(a: string, b: string, c: string)
    requires WordOk(a) && WordOk(b) && WordOk(c)
    ensures ReadRequestLine(a + " " + b + " " + c) == RequestLine(Some(a), Some(b), Some(c))
  {
    FirstWord(a, b, c);
    SecondWord(a, b, c);
    ThirdWord(a, b, c);
  }

  lemma FirstWord(a: string, b: string, c: string)
    requires a != "" && ' ' !in a
    ensures StrTok(a + " " + b + " " + c, 0) == (Some(a), |a|)
  {
    WordThenSpace("", a, " " + b + " " + c);
    assert "" + a + (" " + b + " " + c) == a + " " + b + " " + c;
  }

  lemma SecondWord(a: string, b: string, c: string)
    requires b != "" && ' ' !in b
    ensures StrTok(a + " " + b + " " + c, |a|) == (Some(b), |a| + 1 + |b|)
  {
    SpaceThenWord(a, b, " " + c);
    assert a + " " + b + (" " + c) == a + " " + b + " " + c;
  }

  lemma ThirdWord(a: string, b: string, c: string)
    requires c != "" && ' ' !in c
    ensures StrTok(a + " " + b + " " + c, |a| + 1 + |b|).0 == Some(c)
  {
    SpaceThenWord(a + " " + b, c, "");
    assert (a + " " + b) + " " + c + "" == a + " " + b + " " + c;
  }

  // The request line a buffer is accepted with.
  function LineOf(buf: string): string
    requires StrStr(buf, 0, CRLF).Some?
  {
    buf[..StrStr(buf, 0, CRLF).value]
  }

  // For every buffer the parser accepts: the printed line ends at its first CRLF, reading it
  // again gives the same words with the defaults filled in, and printing that changes nothing.
  lemma RequestLineRoundTrip(buf: string)
    requires StrStr(buf, 0, CRLF).Some?
    ensures var r := ReadRequestLine(LineOf(buf));
            var printed := PrintRequestLine(r);
            && StrStr(printed, 0, CRLF) == Some(|printed| - 4)
            && ReadRequestLine(LineOf(printed)) == WithDefaults(r)
            && PrintRequestLine(ReadRequestLine(LineOf(printed))) == printed
  {
    var r := ReadRequestLine(LineOf(buf));
    FoundLineIsOneLine(buf, 0);
    ReadIsOk(LineOf(buf));
    DefaultsOk();
    PrintedReadsBack(r);
  }

  lemma PrintedReadsBack(r: RequestLine)
    requires LineOk(r) && WordOk("GET") && WordOk("/") && WordOk("HTTP/1.1")
    ensures var printed := PrintRequestLine(r);
            && StrStr(printed, 0, CRLF) == Some(|printed| - 4)
            && ReadRequestLine(LineOf(printed)) == WithDefaults(r)
  {
    var a, b, c := OrElse(r.verb, "GET"), OrElse(r.path, "/"), OrElse(r.version, "HTTP/1.1");
    var line := a + " " + b + " " + c;
    JoinedIsOneLine(a, b);
    JoinedIsOneLine(a + " " + b, c);
    BlankLineEnds(line);
    ReadThreeWords(a, b, c);
  }

  lemma BlankLineEnds(line: string)
    requires OneLine(line)
    ensures StrStr(line + (CRLF + CRLF), 0, CRLF) == Some(|line + (CRLF + CRLF)| - 4)
    ensures LineOf(line + (CRLF + CRLF)) == line
  {
    PrintedLine(line, CRLF + CRLF);
  }

  lemma PrintedLine(line: string, tail: string)
    requires OneLine(line) && |tail| >= 2 && tail[0] == '\r' && tail[1] == '\n'
    ensures StrStr(line + tail, 0, CRLF) == Some(|line|)
    ensures LineOf(line + tail) == line
  {
    var buf := line + tail;
    assert buf[|line|] == tail[0] && buf[|line| + 1] == tail[1];
    LineStands(buf, 0, line);
  }

  // ---------------------------------------------------------------- the headers

  // The CRLF-terminated lines from `pos` on, up to the first empty one.
  function HeaderLines(buf: string, pos: nat): seq<string>
    decreases |buf| - pos
  {
    var end := StrStr(buf, pos, CRLF);
    if end == None || end.value == pos then []
    else [buf[pos..end.value]] + HeaderLines(buf, end.value + 2)
  }

  function PrintLines(lines: seq<string>): string {
    if lines == [] then "" else lines[0] + CRLF + PrintLines(lines[1..])
  }

  function Lower(c: char): char {
    if 'A' <= c <= 'Z' then (c as int + 32) as char else c
  }

  // strcasecmp(a, b) == 0
  predicate SameIgnoringCase(a: string, b: string) {
    |a| == |b| && forall i :: 0 <= i < |a| ==> Lower(a[i]) == Lower(b[i])
  }

  // The value of a line whose name before the first colon is "Host", leading spaces dropped.
  function HostValue(line: string): Option<string> {
    var colon := StrChr(line, ':');
    if colon < |line| && SameIgnoringCase(line[..colon], "Host")
    then Some(line[SkipSpaces(line, colon + 1)..])
    else None
  }

  function FirstHost(lines: seq<string>): Option<string> {
    if lines == [] then None
    else if HostValue(lines[0]).Some? then HostValue(lines[0])
    else FirstHost(lines[1..])
  }

  // One turn of the header loop: the line decides, or the scan goes on behind it.
  lemma ScanStep(buf: string, pos: nat, end: nat, value: Option<string>)
    requires StrStr(buf, pos, CRLF) == Some(end) && pos < end && value == HostValue(buf[pos..end])
    ensures FirstHost(HeaderLines(buf, pos))
         == if value.Some? then value else FirstHost(HeaderLines(buf, end + 2))
  {
    assert HeaderLines(buf, pos)[0] == buf[pos..end];
    assert HeaderLines(buf, pos)[1..] == HeaderLines(buf, end + 2);
  }

  lemma ScanStops(buf: string, pos: nat)
    requires pos >= |buf| || StrStr(buf, pos, CRLF) == None || StrStr(buf, pos, CRLF) == Some(pos)
    ensures FirstHost(HeaderLines(buf, pos)) == None
  {
  }

  // Line k is the first with a Host value, and v is that value.
  ghost predicate FirstAt(lines: seq<string>, k: nat, v: string) {
    k < |lines| && HostValue(lines[k]) == Some(v) && forall j :: 0 <= j < k ==> HostValue(lines[j]) == None
  }

  lemma {:induction false} FirstHostFound(lines: seq<string>) returns (k: nat)
    ensures FirstHost(lines).Some? ==> FirstAt(lines, k, FirstHost(lines).value)
    ensures FirstHost(lines) == None ==> forall j :: 0 <= j < |lines| ==> HostValue(lines[j]) == None
  {
    k := 0;
    if lines != [] && HostValue(lines[0]) == None {
      var rest := lines[1..];
      k := FirstHostFound(rest);
      k := k + 1;
      assert forall j :: 1 <= j < |lines| ==> lines[j] == rest[j - 1];
    }
  }

  lemma {:induction false} FirstAtIsHost(lines: seq<string>, k: nat, v: string)
    requires FirstAt(lines, k, v)
    ensures FirstHost(lines) == Some(v)
  {
    if k > 0 {
      assert forall j :: 0 <= j < |lines| - 1 ==> lines[1..][j] == lines[j + 1];
      FirstAtIsHost(lines[1..], k - 1, v);
    }
  }

  // The first line that names Host decides; there is no host exactly when no line names it.
  lemma FirstHostMeaning(lines: seq<string>, v: string)
    ensures FirstHost(lines) == Some(v) <==> exists k :: FirstAt(lines, k, v)
    ensures FirstHost(lines) == None <==> forall j :: 0 <= j < |lines| ==> HostValue(lines[j]) == None
  {
    var k := FirstHostFound(lines);
    if n :| FirstAt(lines, n, v) {
      FirstAtIsHost(lines, n, v);
    }
    if FirstHost(lines).Some? {
      assert FirstAt(lines, k, FirstHost(lines).value);
    }
  }

  ghost predicate HeaderLineOk(line: string) {
    line != "" && OneLine(line)
  }

  ghost predicate AllLinesOk(lines: seq<string>) {
    forall k {:trigger HeaderLineOk(lines[k])} :: 0 <= k < |lines| ==> HeaderLineOk(lines[k])
  }

  lemma MatchSplit(buf: string, pos: nat, a: string, b: string)
    ensures MatchAt(buf, pos, a + b) <==> MatchAt(buf, pos, a) && MatchAt(buf, pos + |a|, b)
  {
    if MatchAt(buf, pos, a + b) {
      assert forall i :: 0 <= i < |a| ==> (a + b)[i] == a[i];
      assert forall i :: 0 <= i < |b| ==> (a + b)[|a| + i] == b[i];
    }
    if MatchAt(buf, pos, a) && MatchAt(buf, pos + |a|, b) {
      forall i | 0 <= i < |a + b|
        ensures buf[pos + i] == (a + b)[i]
      {
        if i >= |a| {
          assert buf[pos + |a| + (i - |a|)] == b[i - |a|];
        } else {
          assert buf[pos + i] == a[i];
        }
      }
    }
  }

  // One line and its CRLF are read as that line.
  lemma LineIsFound(buf: string, pos: nat, line: string)
    requires OneLine(line) && MatchAt(buf, pos, line + CRLF)
    ensures StrStr(buf, pos, CRLF) == Some(pos + |line|)
    ensures buf[pos..pos + |line|] == line
  {
    MatchSplit(buf, pos, line, CRLF);
    BreakIsMatch(buf, pos + |line|);
    forall i | 0 <= i < |line|
      ensures buf[pos + i] == line[i]
    {
    }
    LineStands(buf, pos, line);
  }

  lemma LineComesFirst(buf: string, pos: nat, line: string)
    requires HeaderLineOk(line) && MatchAt(buf, pos, line + CRLF)
    ensures HeaderLines(buf, pos) == [line] + HeaderLines(buf, pos + |line| + 2)
  {
    LineIsFound(buf, pos, line);
  }

  lemma NoLineComes(buf: string, pos: nat)
    requires MatchAt(buf, pos, CRLF)
    ensures HeaderLines(buf, pos) == []
  {
    assert "" + CRLF == CRLF;
    LineIsFound(buf, pos, "");
  }

  lemma ReadBackStep(buf: string, pos: nat, line: string, others: seq<string>)
    requires HeaderLineOk(line) && MatchAt(buf, pos, PrintLines([line] + others) + CRLF)
    ensures MatchAt(buf, pos + |line| + 2, PrintLines(others) + CRLF)
    ensures HeaderLines(buf, pos) == [line] + HeaderLines(buf, pos + |line| + 2)
  {
    PrintLinesCons(line, others);
    assert PrintLines([line] + others) + CRLF == (line + CRLF) + (PrintLines(others) + CRLF);
    MatchSplit(buf, pos, line + CRLF, PrintLines(others) + CRLF);
    LineComesFirst(buf, pos, line);
  }

  // The scan reads back what is printed: where lines without CRLF and NUL, none empty, stand
  // in the buffer followed by an empty line, it finds exactly those lines.
  lemma {:induction false} LinesReadBack(buf: string, pos: nat, lines: seq<string>)
    requires AllLinesOk(lines)
    requires MatchAt(buf, pos, PrintLines(lines) + CRLF)
    ensures HeaderLines(buf, pos) == lines
    decreases |lines|
  {
    if lines == [] {
      assert PrintLines(lines) + CRLF == CRLF;
      NoLineComes(buf, pos);
    } else {
      var line, others := lines[0], lines[1..];
      assert HeaderLineOk(line) && lines == [line] + others;
      ReadBackStep(buf, pos, line, others);
      AllLinesRest(lines);
      LinesReadBack(buf, pos + |line| + 2, others);
    }
  }

  lemma AllLinesRest(lines: seq<string>)
    requires lines != [] && AllLinesOk(lines)
    ensures AllLinesOk(lines[1..])
  {
    forall k | 0 <= k < |lines| - 1
      ensures HeaderLineOk(lines[1..][k])
    {
      assert HeaderLineOk(lines[k + 1]);
    }
  }

  // No line starts at n: an empty one does, or no CRLF comes before the next NUL.
  predicate NoLineAt(buf: string, n: nat) {
    StrStr(buf, n, CRLF) == None || StrStr(buf, n, CRLF) == Some(n)
  }

  // And what it finds is what is there, all of it: no further line follows.
  lemma {:induction false} LinesAreThere(buf: string, pos: nat) returns (n: nat)
    requires pos <= |buf|
    ensures MatchAt(buf, pos, PrintLines(HeaderLines(buf, pos)))
    ensures AllLinesOk(HeaderLines(buf, pos))
    ensures n == pos + |PrintLines(HeaderLines(buf, pos))| && NoLineAt(buf, n)
    decreases |buf| - pos
  {
    var end := StrStr(buf, pos, CRLF);
    n := pos;
    if end != None && end.value != pos {
      var line := FoundLine(buf, pos, end.value);
      var next := end.value + 2;
      var rest := HeaderLines(buf, next);
      n := LinesAreThere(buf, next);
      LineIsThere(buf, pos, line, rest, next);
    }
  }

  lemma LineIsThere(buf: string, pos: nat, line: string, rest: seq<string>, next: nat)
    requires HeaderLineOk(line) && AllLinesOk(rest) && MatchAt(buf, pos, line + CRLF)
    requires next == pos + |line| + 2 && rest == HeaderLines(buf, next) && MatchAt(buf, next, PrintLines(rest))
    ensures HeaderLines(buf, pos) == [line] + rest
    ensures AllLinesOk([line] + rest) && MatchAt(buf, pos, PrintLines([line] + rest))
    ensures pos + |PrintLines(HeaderLines(buf, pos))| == next + |PrintLines(rest)|
  {
    LineComesFirst(buf, pos, line);
    MatchSplit(buf, pos, line + CRLF, PrintLines(rest));
    PrintLinesCons(line, rest);
    AllLinesCons(line, rest);
  }

  lemma FoundLine(buf: string, pos: nat, end: nat) returns (line: string)
    requires StrStr(buf, pos, CRLF) == Some(end) && pos < end
    ensures HeaderLineOk(line) && |line| == end - pos && MatchAt(buf, pos, line + CRLF)
    ensures end + 2 <= |buf|
  {
    FindsLineEnd(buf, pos, end);
    line := buf[pos..end];
    FoundLineIsOneLine(buf, pos);
    BreakIsMatch(buf, end);
    MatchSplit(buf, pos, line, CRLF);
  }

  lemma AllLinesCons(line: string, lines: seq<string>)
    requires HeaderLineOk(line) && AllLinesOk(lines)
    ensures AllLinesOk([line] + lines)
  {
    forall k | 0 <= k < |lines| + 1
      ensures HeaderLineOk(([line] + lines)[k])
    {
      assert k > 0 ==> ([line] + lines)[k] == lines[k - 1] && HeaderLineOk(lines[k - 1]);
    }
  }

  lemma PrintLinesCons(line: string, lines: seq<string>)
    ensures PrintLines([line] + lines) == (line + CRLF) + PrintLines(lines)
  {
    assert ([line] + lines)[1..] == lines;
  }

  // ---------------------------------------------------------------- the request object

  class ParsedRequest {
    var buf: string
    var verb: Option<string>
    var path: Option<string>
    var version: Option<string>
    var host: Option<string>
    var port: Option<string>

    // ParsedRequest_create: calloc.
    constructor ()
      ensures verb == path == version == host == port == None
    {
      buf, verb, path, version, host, port := "", None, None, None, None, None;
    }

    // ParsedRequest_parse.  A word that is missing leaves its field as it was.
    method Parse(text: string) returns (code: int)
      modifies this
      ensures code == if text != "" && StrStr(text, 0, CRLF).Some? then 0 else -1
      ensures code == -1 ==> unchanged(`verb, `path, `version, `host, `port)
      ensures code == 0 && old(port) == None ==> port == Some("80")
      ensures code == 0 ==> ParsedFrom(text, old(verb), old(path), old(version), old(host), old(port))
    {
      if text == "" {
        return -1;
      }
      buf := text;
      var lineEnd := StrStr(buf, 0, CRLF);
      if lineEnd == None {
        return -1;
      }
      KeepWords(buf[..lineEnd.value]);
      KeepHost(lineEnd.value + 2);
      code := 0;
    }

    // What a successful parse leaves in the fields, given what was in them.
    ghost predicate ParsedFrom(text: string, verb0: Option<string>, path0: Option<string>,
                               version0: Option<string>, host0: Option<string>, port0: Option<string>)
      requires StrStr(text, 0, CRLF).Some?
      reads this
    {
      var line := ReadRequestLine(LineOf(text));
      && verb == FirstOf(line.verb, verb0)
      && path == FirstOf(line.path, path0)
      && version == FirstOf(line.version, version0)
      && host == FirstOf(FirstHost(HeaderLines(text, |LineOf(text)| + 2)), host0)
      && port == FirstOf(port0, Some("80"))
    }

    // The three strtok calls and the fields they fill.
    method KeepWords(requestLine: string)
      modifies `verb, `path, `version
      ensures var line := ReadRequestLine(requestLine);
              && verb == FirstOf(line.verb, old(verb))
              && path == FirstOf(line.path, old(path))
              && version == FirstOf(line.version, old(version))
    {
      var (word1, p) := StrTok(requestLine, 0);
      var (word2, q) := StrTok(requestLine, p);
      var (word3, _) := StrTok(requestLine, q);
      if word1.Some? { verb := word1; }
      if word2.Some? { path := word2; }
      if word3.Some? { version := word3; }
    }

    // The rest of ParsedRequest_parse.
    method KeepHost(start: nat)
      modifies `host, `port
      ensures host == FirstOf(FirstHost(HeaderLines(buf, start)), old(host))
      ensures port == FirstOf(old(port), Some("80"))
    {
      var found := ScanHeaders(start);
      if found.Some? { host := found; }
      if port == None { port := Some("80"); }
    }

    // The header loop of ParsedRequest_parse.
    method ScanHeaders(start: nat) returns (found: Option<string>)
      ensures found == FirstHost(HeaderLines(buf, start))
    {
      found := None;
      var current := start;
      var text := buf;
      ghost var sought := FirstHost(HeaderLines(text, start));
      while current < |text|
        invariant FirstHost(HeaderLines(text, current)) == sought
        invariant found == None
        decreases |text| - current
      {
        var headerEnd := StrStr(text, current, CRLF);
        if headerEnd == None || headerEnd.value == current {
          break;
        }
        found := ReadHeader(text[current..headerEnd.value]);
        ScanStep(text, current, headerEnd.value, found);
        if found.Some? {
          return;
        }
        current := headerEnd.value + 2;
      }
      ScanStops(text, current);
    }

    // One header line: its Host value, if that is what it names.
    method ReadHeader(line: string) returns (value: Option<string>)
      ensures value == HostValue(line)
    {
      var colon := StrChr(line, ':');
      if colon < |line| {
        var name := line[..colon];
        var start := colon + 1;
        while start < |line| && line[start] == ' '
          invariant colon < start <= |line|
          invariant SkipSpaces(line, start) == SkipSpaces(line, colon + 1)
        {
          start := start + 1;
        }
        if SameIgnoringCase(name, "Host") {
          return Some(line[start..]);
        }
      }
      value := None;
    }

    // ParsedRequest_unparse_headers into a buffer of `room` bytes.
    method Unparse(room: nat) returns (text: string)
      ensures text == Printed(PrintRequestLine(RequestLine(verb, path, version)), room)
    {
      var line := OrElse(verb, "GET") + " " + OrElse(path, "/") + " " + OrElse(version, "HTTP/1.1") + "\r\n\r\n";
      assert line == PrintRequestLine(RequestLine(verb, path, version));
      text := if room == 0 then "" else if |line| < room then line else line[..room - 1];
    }
  }

  // Parsing, printing with enough room and parsing again, on the objects themselves.
  method ParsePrintParse(text: string, room: nat) returns (code: int, first: ParsedRequest, second: ParsedRequest)
    ensures code == 0 <==> text != "" && StrStr(text, 0, CRLF).Some?
    ensures fresh(first) && fresh(second)
    ensures code == 0 && |PrintRequestLine(RequestLine(first.verb, first.path, first.version))| < room ==>
              RequestLine(second.verb, second.path, second.version)
                == WithDefaults(RequestLine(first.verb, first.path, first.version))
  {
    first := new ParsedRequest();
    second := new ParsedRequest();
    code := first.Parse(text);
    if code == 0 {
      var printed := first.Unparse(room);
      RequestLineRoundTrip(text);
      var _ := second.Parse(printed);
    }
  }

  // ---------------------------------------------------------------- host and port

  const DEFAULT_PORT: int := 80

  datatype Endpoint = Endpoint(host: string, port: int)

  function PortOf(text: string): int {
    var port := Atoi(text);
    if port <= 0 || port > 65535 then DEFAULT_PORT else port
  }

  function HostPort(header: string): Endpoint {
    var colon := StrChr(header, ':');
    if colon < |header| then Endpoint(header[..colon], PortOf(header[colon + 1..]))
    else Endpoint(header, DEFAULT_PORT)
  }

  // extract_host_port.
  method ExtractHostPort(header: string) returns (host: string, port: int)
    ensures Endpoint(host, port) == HostPort(header)
    ensures 0 < port <= 65535 && ':' !in host
  {
    port := DEFAULT_PORT;
    var separator := StrChr(header, ':');
    if separator < |header| {
      host := header[..separator];
      port := Atoi(header[separator + 1..]);
      if port <= 0 || port > 65535 {
        port := DEFAULT_PORT;
      }
    } else {
      host := header;
    }
  }

  lemma FirstCharAt(host: string, c: char, rest: string)
    requires c !in host
    ensures StrChr(host + ([c] + rest), c) == |host|
    ensures (host + ([c] + rest))[..|host|] == host
    ensures (host + ([c] + rest))[|host| + 1..] == rest
  {
    var s := host + ([c] + rest);
    assert s[|host|] == c;
    assert forall j :: 0 <= j < |host| ==> s[j] == host[j];
  }

  // Splitting what was printed gives back host and port; a bare host gets port 80.
  lemma HostPortRoundTrip(host: string, port: nat)
    requires ':' !in host && 0 < port <= 65535
    ensures HostPort(host + (":" + Decimal(port))) == Endpoint(host, port)
    ensures HostPort(host) == Endpoint(host, DEFAULT_PORT)
  {
    FirstCharAt(host, ':', Decimal(port));
    AtoiDecimal(port, "");
    assert Decimal(port) + "" == Decimal(port);
  }

  // Behind the colon only a number from 1 to 65535 counts, whatever follows it; nothing, no
  // number, a negative one or one out of range give port 80.
  lemma OnlyPortsCount(host: string, n: nat, after: string, other: string)
    requires ':' !in host && (after == "" || !IsDigit(after[0]))
    requires other == "" ||
      (!('0' <= other[0] <= '9') && other[0] !in "+- \t\n\r" && other[0] != 0x0B as char && other[0] != 0x0C as char)
    ensures HostPort(host + (":" + (Decimal(n) + after))) == Endpoint(host, if 0 < n <= 65535 then n else 80)
    ensures HostPort(host + (":" + ("-" + (Decimal(n) + after)))) == Endpoint(host, 80)
    ensures HostPort(host + (":" + other)) == Endpoint(host, 80)
    ensures HostPort(host) == Endpoint(host, 80)
  {
    FirstCharAt(host, ':', Decimal(n) + after);
    AtoiDecimal(n, after);
    FirstCharAt(host, ':', "-" + (Decimal(n) + after));
    AtoiSigned('-', n, after);
    FirstCharAt(host, ':', other);
    AtoiNothing(other);
  }
}
