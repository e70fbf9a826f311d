/**
 * The text of a whole request, from its bytes to the fields the proxy works with: the words of
 * the request line, the header lines, and the Host among them.
 */
module RequestText {
  import opened CText
  import opened HttpParser
  import opened Wrappers

  // ---------------------------------------------------------------- header lines

  function Spaces(n: nat): (s: string)
    ensures |s| == n && forall i :: 0 <= i < n ==> s[i] == ' '
  {
    seq(n, _ => ' ')
  }

  // "Host", each letter in either case.
  predicate IsHost(name: string) {
    && |name| == 4
    && (name[0] == 'H' || name[0] == 'h')
    && (name[1] == 'O' || name[1] == 'o')
    && (name[2] == 'S' || name[2] == 's')
    && (name[3] == 'T' || name[3] == 't')
  }

  lemma IsHostMeans(name: string)
    ensures SameIgnoringCase(name, "Host") <==> IsHost(name)
  {
    var host := "Host";
    assert host[0] == 'H' && host[1] == 'o' && host[2] == 's' && host[3] == 't';
    if SameIgnoringCase(name, host) {
      assert Lower(name[0]) == Lower(host[0]) && Lower(name[1]) == Lower(host[1]);
      assert Lower(name[2]) == Lower(host[2]) && Lower(name[3]) == Lower(host[3]);
    }
  }

  function HeaderLine(name: string, spaces: nat, value: string): string {
    name + (":" + (Spaces(spaces) + value))
  }

  // Nothing, or text that does not start with a space.
  predicate Trimmed(value: string) {
    value == "" || value[0] != ' '
  }

  // A header line gives its value exactly when its name is Host; the spaces behind the colon
  // are not part of the value, and the name ends at the first colon.
  lemma HeaderLineMeans(name: string, spaces: nat, value: string)
    requires ':' !in name && Trimmed(value)
    ensures HostValue(HeaderLine(name, spaces, value)) == if IsHost(name) then Some(value) else None
  {
    var line, rest := HeaderLine(name, spaces, value), Spaces(spaces) + value;
    FirstCharAt(name, ':', rest);
    IsHostMeans(name);
    var start, n := SkipSpaces(line, |name| + 1), |name| + 1 + spaces;
    assert forall j :: |name| < j < |line| ==> line[j] == rest[j - |name| - 1];
    assert value != "" ==> line[n] == value[0];
    assert start == n;
    assert line[n..] == value;
  }

  lemma NoColonNoHost(line: string)
    requires ':' !in line
    ensures HostValue(line) == None
  {
  }

  // Every line with a colon is a header line in this sense.
  lemma EveryHeaderLine(line: string) returns (name: string, spaces: nat, value: string)
    requires ':' in line
    ensures ':' !in name && Trimmed(value) && line == HeaderLine(name, spaces, value)
  {
    var colon := StrChr(line, ':');
    var start := SkipSpaces(line, colon + 1);
    name, spaces, value := line[..colon], start - colon - 1, line[start..];
    assert line[colon + 1..start] == Spaces(spaces);
    assert line == line[..colon] + ([line[colon]] + (line[colon + 1..start] + line[start..]));
  }

  // ---------------------------------------------------------------- whole requests

  // A request: its first line, its header lines, an empty line.
  function Request(line: string, headers: seq<string>): string {
    line + (CRLF + (PrintLines(headers) + CRLF))
  }

  lemma BehindMatches(front: string, rest: string)
    ensures MatchAt(front + rest, |front|, rest)
  {
  }

  lemma HeadersStand(line: string, rest: string)
    ensures MatchAt(line + (CRLF + rest), |line| + 2, rest)
  {
    BehindMatches(line + CRLF, rest);
    assert line + (CRLF + rest) == (line + CRLF) + rest;
  }

  lemma LineStandsFirst(line: string, rest: string)
    requires OneLine(line)
    ensures StrStr(line + (CRLF + rest), 0, CRLF) == Some(|line|) && LineOf(line + (CRLF + rest)) == line
  {
    assert (CRLF + rest)[0] == CRLF[0] && (CRLF + rest)[1] == CRLF[1];
    PrintedLine(line, CRLF + rest);
  }

  // A printed request is read as what was printed.
  lemma RequestReads(line: string, headers: seq<string>)
    requires OneLine(line) && AllLinesOk(headers)
    ensures var text := Request(line, headers);
            && StrStr(text, 0, CRLF) == Some(|line|) && LineOf(text) == line
            && HeaderLines(text, |line| + 2) == headers
  {
    var rest := PrintLines(headers) + CRLF;
    LineStandsFirst(line, rest);
    HeadersStand(line, rest);
    LinesReadBack(Request(line, headers), |line| + 2, headers);
  }

  // ---------------------------------------------------------------- the words of the first line

  // Words are handed out in order, and missing ones are missing, whatever spaces are left.
  lemma ReadNoWord(spaces: nat)
    ensures ReadRequestLine(Spaces(spaces)) == RequestLine(None, None, None)
  {
    NoWordLeft("", spaces);
    assert "" + Spaces(spaces) == Spaces(spaces);
    NothingAtTheEnd(Spaces(spaces));
  }

  lemma ReadOneWord(a: string, spaces: nat)
    requires a != "" && ' ' !in a
    ensures ReadRequestLine(a + Spaces(spaces)) == RequestLine(Some(a), None, None)
  {
    var line := a + Spaces(spaces);
    WordThenSpace("", a, Spaces(spaces));
    assert "" + a + Spaces(spaces) == line;
    NoWordLeft(a, spaces);
    NothingAtTheEnd(line);
  }

  lemma ReadTwoWords(a: string, b: string, spaces: nat)
    requires a != "" && ' ' !in a && b != "" && ' ' !in b
    ensures ReadRequestLine(a + " " + b + Spaces(spaces)) == RequestLine(Some(a), Some(b), None)
  {
    var line := a + " " + b + Spaces(spaces);
    WordThenSpace("", a, " " + b + Spaces(spaces));
    assert "" + a + (" " + b + Spaces(spaces)) == line;
    SpaceThenWord(a, b, Spaces(spaces));
    NoWordLeft(a + " " + b, spaces);
    NothingAtTheEnd(line);
  }

  lemma NoWordLeft(before: string, spaces: nat)
    ensures StrTok(before + Spaces(spaces), |before|) == (None, |before| + spaces)
  {
    var s := before + Spaces(spaces);
    assert forall j :: |before| <= j < |s| ==> s[j] == ' ';
  }

  lemma NothingAtTheEnd(s: string)
    ensures StrTok(s, |s|) == (None, |s|)
  {
  }

  // What is printed for words that are there and for those that are missing.
  lemma PrintedWords(a: string, b: string, c: string)
    ensures PrintRequestLine(RequestLine(Some(a), Some(b), Some(c))) == a + " " + b + " " + c + "\r\n\r\n"
    ensures PrintRequestLine(RequestLine(None, None, None)) == "GET / HTTP/1.1\r\n\r\n"
  {
    assert CRLF + CRLF == "\r\n\r\n";
  }

  // A buffer takes what fits in front of its terminator.
  lemma PrintedFits(text: string, room: nat)
    ensures Printed(text, room) <= text
    ensures |Printed(text, room)| == if |text| < room then |text| else if room == 0 then 0 else room - 1
  {
  }

  // ---------------------------------------------------------------- the host of a request

  // The line is not a Host header.
  ghost predicate NotHost(line: string) {
    forall name, spaces, value ::
      ':' !in name && Trimmed(value) && line == HeaderLine(name, spaces, value) ==> !IsHost(name)
  }

  lemma NotHostMeans(line: string)
    ensures NotHost(line) <==> HostValue(line) == None
  {
    forall name, spaces, value | ':' !in name && Trimmed(value) && line == HeaderLine(name, spaces, value)
      ensures HostValue(line) == if IsHost(name) then Some(value) else None
    {
      HeaderLineMeans(name, spaces, value);
    }
    if ':' in line {
      var name, spaces, value := EveryHeaderLine(line);
      HeaderLineMeans(name, spaces, value);
    } else {
      NoColonNoHost(line);
    }
  }

  // The host is the value of the first Host header, and there is none without one.
  lemma HostOfHeaders(headers: seq<string>, k: nat, name: string, spaces: nat, value: string)
    requires ':' !in name && Trimmed(value) && IsHost(name)
    requires k < |headers| && headers[k] == HeaderLine(name, spaces, value)
    requires forall j :: 0 <= j < k ==> NotHost(headers[j])
    ensures FirstHost(headers) == Some(value)
  {
    HeaderLineMeans(name, spaces, value);
    forall j | 0 <= j < k
      ensures HostValue(headers[j]) == None
    {
      NotHostMeans(headers[j]);
    }
    FirstAtIsHost(headers, k, value);
  }

  lemma NoHostInHeaders(headers: seq<string>)
    requires forall j :: 0 <= j < |headers| ==> NotHost(headers[j])
    ensures FirstHost(headers) == None
  {
    forall j | 0 <= j < |headers|
      ensures HostValue(headers[j]) == None
    {
      NotHostMeans(headers[j]);
    }
    FirstHostMeaning(headers, "");
  }
}
