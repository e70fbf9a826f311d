/**
 * Splitting request targets (src/components/proxy_server.c): parse_request_url, and the path
 * that forward_request_to_server cuts out of the target by itself.
 */
module ProxyUrl {
  import opened CText
  import opened Wrappers
  import opened HttpParser

  const SCHEME: string := "http://"
  const PATH_ROOM: nat := 255  // char actual_path[256]

  datatype Target = Target(host: string, port: int, path: string)

  predicate HasScheme(url: string) {
    MatchAt(url, 0, SCHEME)
  }

  function WithoutScheme(url: string): string {
    if HasScheme(url) then url[7..] else url
  }

  // Host up to the first ':' or '/', the number after a ':' that precedes any '/', and
  // everything from the first '/'.
  function SplitTarget(url: string): Target {
    var rest := WithoutScheme(url);
    var colon, slash := StrChr(rest, ':'), StrChr(rest, '/');
    Target(if colon < slash then rest[..colon] else rest[..slash],
           if colon < slash then Atoi(rest[colon + 1..]) else 80,
           if slash < |rest| then rest[slash..] else "/")
  }

  // parse_request_url.
  method ParseRequestUrl(url: string) returns (host: string, port: int, path: string)
    ensures Target(host, port, path) == SplitTarget(url)
  {
    port := 80;
    path := "/";
    var start := url;
    if MatchAt(url, 0, SCHEME) {
      start := url[7..];
    }
    var portStart, pathStart := StrChr(start, ':'), StrChr(start, '/');
    if portStart < |start| && (pathStart == |start| || portStart < pathStart) {
      host := start[..portStart];
      port := Atoi(start[portStart + 1..]);
      if pathStart < |start| {
        path := start[pathStart..];
      }
    } else if pathStart < |start| {
      host := start[..pathStart];
      path := start[pathStart..];
    } else {
      host := start;
    }
  }

  lemma SchemeTaken(rest: string)
    ensures HasScheme(SCHEME + rest) && WithoutScheme(SCHEME + rest) == rest
  {
    assert forall i :: 0 <= i < 7 ==> (SCHEME + rest)[i] == SCHEME[i];
    assert (SCHEME + rest)[7..] == rest;
  }

  ghost predicate PathOk(path: string) {
    path != "" && path[0] == '/'
  }

  function Joined(host: string, port: nat, path: string): string {
    host + ([':'] + (Decimal(port) + path))
  }

  lemma NoSlashInFront(host: string, port: nat)
    requires '/' !in host
    ensures '/' !in host + [':'] + Decimal(port)
  {
    var digits := Decimal(port);
    assert forall i :: 0 <= i < |digits| ==> digits[i] != '/';
  }

  lemma PathComesLast(host: string, port: nat, path: string)
    requires '/' !in host && PathOk(path)
    ensures var rest, k := Joined(host, port, path), |host| + 1 + |Decimal(port)|;
            StrChr(rest, '/') == k && k < |rest| && rest[k..] == path
  {
    var front := host + [':'] + Decimal(port);
    NoSlashInFront(host, port);
    assert path == ['/'] + path[1..];
    assert Joined(host, port, path) == front + (['/'] + path[1..]);
    FirstCharAt(front, '/', path[1..]);
    assert (front + path)[|front|..] == path;
  }

  // A host without ':' is never mistaken for a scheme.
  lemma JoinedHasNoScheme(host: string, port: nat, path: string)
    requires ':' !in host
    ensures !HasScheme(Joined(host, port, path))
  {
    var rest, digits := Joined(host, port, path), Decimal(port);
    FirstCharAt(host, ':', digits + path);
    assert rest[|host| + 1..][0] == digits[0];
    assert rest[|host| + 1] == digits[0] != '/';
    assert SCHEME[4] == ':' && SCHEME[5] == '/';
    if |rest| >= 7 && rest[4] == ':' {
      assert SCHEME[0] != ':' && SCHEME[1] != ':' && SCHEME[2] != ':' && SCHEME[3] != ':';
    }
  }

  // Printing and splitting a target are inverse, with and without the scheme.
  lemma TargetRoundTrip(host: string, port: nat, path: string)
    requires ':' !in host && '/' !in host && PathOk(path)
    ensures SplitTarget(SCHEME + Joined(host, port, path)) == Target(host, port, path)
    ensures SplitTarget(Joined(host, port, path)) == Target(host, port, path)
  {
    SchemeTaken(Joined(host, port, path));
    JoinedHasNoScheme(host, port, path);
    JoinedSplits(host, port, path);
  }

  lemma JoinedSplits(host: string, port: nat, path: string)
    requires ':' !in host && '/' !in host && PathOk(path)
    ensures var rest := Joined(host, port, path);
            var colon, slash := StrChr(rest, ':'), StrChr(rest, '/');
            && colon < slash < |rest| && rest[..colon] == host && Atoi(rest[colon + 1..]) == port
            && rest[slash..] == path
  {
    var rest := Joined(host, port, path);
    FirstCharAt(host, ':', Decimal(port) + path);
    PathComesLast(host, port, path);
    assert rest[|host| + 1..] == Decimal(port) + path;
    AtoiDecimal(port, path);
  }

  // Without a port the target splits at its path, and the port is 80.
  lemma PortlessRoundTrip(host: string, path: string)
    requires ':' !in host && '/' !in host && PathOk(path)
    ensures SplitTarget(SCHEME + (host + path)) == Target(host, 80, path)
  {
    var rest := host + path;
    SchemeTaken(rest);
    FirstCharAt(host, '/', path[1..]);
    assert path == ['/'] + path[1..];
    assert rest[|host|..] == path;
    assert forall j :: 0 <= j < |host| ==> rest[j] == host[j];
  }

  lemma SlashlessSplits(rest: string)
    requires '/' !in rest
    ensures var colon := StrChr(rest, ':');
            SplitTarget(rest) == SplitTarget(SCHEME + rest) ==
              if colon < |rest| then Target(rest[..colon], Atoi(rest[colon + 1..]), "/") else Target(rest, 80, "/")
  {
    SchemeTaken(rest);
    NoSlashNoScheme(rest);
    assert rest[..|rest|] == rest;
  }

  lemma NoSlashInNamed(host: string, port: nat)
    requires '/' !in host
    ensures '/' !in host + (":" + Decimal(port))
  {
    NoSlashInFront(host, port);
    assert host + (":" + Decimal(port)) == host + [':'] + Decimal(port);
  }

  // Without a slash the path is "/"; the port is the number behind the colon, or else 80.
  lemma SlashlessTargets(host: string, port: nat)
    requires ':' !in host && '/' !in host
    ensures SplitTarget(host) == SplitTarget(SCHEME + host) == Target(host, 80, "/")
    ensures var named := host + (":" + Decimal(port));
            SplitTarget(named) == SplitTarget(SCHEME + named) == Target(host, port, "/")
  {
    SlashlessSplits(host);
    NoSlashInNamed(host, port);
    NamedSplits(host, port);
    SlashlessSplits(host + (":" + Decimal(port)));
  }

  lemma NamedSplits(host: string, port: nat)
    requires ':' !in host
    ensures var named := host + (":" + Decimal(port));
            && StrChr(named, ':') == |host| < |named|
            && named[..|host|] == host && Atoi(named[|host| + 1..]) == port
  {
    FirstCharAt(host, ':', Decimal(port));
    AtoiDecimal(port, "");
    assert Decimal(port) + "" == Decimal(port);
  }

  lemma NoSlashNoScheme(text: string)
    requires '/' !in text
    ensures !HasScheme(text) && StrChr(text, '/') == |text|
  {
    assert SCHEME[5] == '/';
    assert |text| >= 7 ==> text[5] != '/';
  }

  // Whatever a port is printed with, a colon behind the first slash does not start one.
  lemma ColonInPath(host: string, path: string)
    requires ':' !in host && '/' !in host && PathOk(path) && !HasScheme(host + path)
    ensures SplitTarget(host + path) == Target(host, 80, path)
  {
    var rest := host + path;
    FirstCharAt(host, '/', path[1..]);
    assert path == ['/'] + path[1..];
    assert rest[|host|..] == path;
    assert forall j :: 0 <= j < |host| ==> rest[j] == host[j];
  }

  // ---------------------------------------------------------------- the inline extraction

  // Cut keeps 255 bytes.
  lemma CutKeeps(path: string)
    ensures Cut(path) == if |path| <= 255 then path else path[..255]
  {
  }

  function Cut(path: string): string {
    if |path| <= PATH_ROOM then path else path[..PATH_ROOM]
  }

  // The path put into the forwarded request.
  function ActualPath(target: string): string {
    if StrStr(target, 0, SCHEME).Some? then
      var k := StrStr(target, 7, "/");
      if k.Some? then Cut(target[k.value..]) else "/"
    else if target != "" && target[0] == '/' then Cut(target)
    else "/"
  }

  ghost predicate NoNul(s: string) {
    forall i :: 0 <= i < |s| ==> s[i] != NUL
  }

  // For strings without NUL, strstr with one character is strchr.
  lemma SlashFrom(s: string, pos: nat)
    requires NoNul(s) && pos <= |s|
    ensures StrStr(s, pos, "/") == if StrChr(s[pos..], '/') < |s| - pos then Some(pos + StrChr(s[pos..], '/')) else None
  {
    var k := StrChr(s[pos..], '/');
    forall j | pos <= j < pos + k
      ensures !MatchAt(s, j, "/")
    {
      assert s[j] == s[pos..][j - pos];
      assert "/"[0] == '/';
    }
    if pos + k < |s| {
      assert s[pos + k] == s[pos..][k];
      assert MatchAt(s, pos + k, "/");
      StrStrIs(s, pos, "/", pos + k);
    } else {
      forall j | pos <= j <= |s|
        ensures !MatchAt(s, j, "/")
      {
        assert j < |s| ==> s[j] == s[pos..][j - pos];
        assert "/"[0] == '/';
      }
      StrStrNone(s, pos, "/");
    }
  }

  // For absolute-form targets the two agree, up to the 255 bytes of the inline buffer.
  lemma AbsoluteFormsAgree(url: string)
    requires HasScheme(url) && NoNul(url)
    ensures ActualPath(url) == Cut(SplitTarget(url).path)
  {
    StrStrIs(url, 0, SCHEME, 0);
    SlashFrom(url, 7);
    var slash := StrChr(url[7..], '/');
    assert slash < |url| - 7 ==> url[7..][slash..] == url[7 + slash..];
  }

  // The first 255 bytes come again from position k on.
  predicate Repeats(text: string, k: nat) {
    k > 0 && k + PATH_ROOM <= |text| && forall i :: 0 <= i < PATH_ROOM ==> text[k + i] == text[i]
  }

  lemma CutSuffix(text: string, k: nat)
    requires 0 < k <= |text|
    ensures Cut(text[k..]) == Cut(text) <==> Repeats(text, k)
  {
    var a, b := Cut(text[k..]), Cut(text);
    if Repeats(text, k) {
      assert forall i :: 0 <= i < PATH_ROOM ==> a[i] == text[k + i] && b[i] == text[i];
    }
    if a == b {
      assert |a| == PATH_ROOM;
      assert forall i :: 0 <= i < PATH_ROOM ==> a[i] == text[k + i] && b[i] == text[i];
    }
  }

  // The scheme inside a target brings a slash behind the seventh byte.
  lemma SlashBehindScheme(url: string)
    requires NoNul(url) && !HasScheme(url) && StrStr(url, 0, SCHEME).Some?
    ensures var a, k := StrChr(url, '/'), StrStr(url, 7, "/");
            && a < |url| && k.Some? && 7 <= k.value < |url|
            && a <= k.value && (a >= 7 ==> k.value == a)
  {
    var p := StrStr(url, 0, SCHEME).value;
    assert p > 0 && p + 7 <= |url|;
    assert SCHEME[6] == '/' && url[p + 6] == '/';
    SlashFrom(url, 7);
    var rest := url[7..];
    assert rest[p - 1] == '/';
    var k := 7 + StrChr(rest, '/');
    assert url[k] == rest[k - 7] == '/';
    var a := StrChr(url, '/');
    if a >= 7 {
      assert rest[a - 7] == '/';
    }
  }

  // When the two forms of extraction agree, target by target.
  ghost predicate FormsMeet(url: string) {
    var slash := StrChr(url, '/');
    if HasScheme(url) then true
    else if StrStr(url, 0, SCHEME) == None then slash == 0 || slash >= |url| - 1
    else slash >= 7 || (StrStr(url, 7, "/").Some? && Repeats(url[slash..], StrStr(url, 7, "/").value - slash))
  }

  // A target with the scheme inside, but not in front.  The inline code looks for the scheme
  // anywhere, skips seven bytes and takes the next slash, while parse_request_url takes the
  // first one.
  lemma SchemeInside(url: string)
    requires NoNul(url) && !HasScheme(url) && StrStr(url, 0, SCHEME).Some?
    ensures ActualPath(url) == Cut(SplitTarget(url).path) <==> FormsMeet(url)
    ensures |url| <= PATH_ROOM ==> (FormsMeet(url) <==> StrChr(url, '/') >= 7)
  {
    SlashBehindScheme(url);
    OtherSplit(url);
    var a, k := StrChr(url, '/'), StrStr(url, 7, "/").value;
    if a < 7 {
      CutSuffix(url[a..], k - a);
      assert url[a..][k - a..] == url[k..];
    }
  }

  // For every target the two extractions agree, up to the cut, exactly when FormsMeet.
  lemma FormsAgree(url: string)
    requires NoNul(url)
    ensures ActualPath(url) == Cut(SplitTarget(url).path) <==> FormsMeet(url)
  {
    if HasScheme(url) {
      AbsoluteFormsAgree(url);
    } else if StrStr(url, 0, SCHEME).Some? {
      SchemeInside(url);
    } else {
      NoSchemeInside(url);
    }
  }

  lemma NoSchemeInside(url: string)
    requires !HasScheme(url) && StrStr(url, 0, SCHEME) == None
    ensures ActualPath(url) == Cut(SplitTarget(url).path) <==> FormsMeet(url)
  {
    OtherSplit(url);
    if PathOk(url) {
      assert StrChr(url, '/') == 0 && url[0..] == url;
    } else {
      CutIsSlash(SplitTarget(url).path);
    }
  }

  // Origin-form targets: either the scheme is not inside, or what is found behind the seventh
  // byte repeats the target up to the cut.
  lemma OriginFormsAgree(url: string)
    requires PathOk(url) && NoNul(url)
    ensures ActualPath(url) == Cut(SplitTarget(url).path) <==>
            (StrStr(url, 0, SCHEME) == None
             || (StrStr(url, 7, "/").Some? && Repeats(url, StrStr(url, 7, "/").value)))
    ensures |url| <= PATH_ROOM ==> forall k: nat :: !Repeats(url, k)
  {
    assert !HasScheme(url) by {
      assert SCHEME[0] == 'h';
    }
    assert StrChr(url, '/') == 0 && url[0..] == url;
    FormsAgree(url);
  }

  // The shortest target on which they differ: the scheme behind a slash.
  lemma OriginFormDiffers()
    ensures PathOk("/http://") && NoNul("/http://")
    ensures ActualPath("/http://") == "/"
    ensures SplitTarget("/http://").path == "/http://"
  {
    var url := "/http://";
    SchemeBehindSlash(url);
    assert MatchAt(url, 7, "/") by {
      assert url[7 + 0] == "/"[0];
    }
    StrStrIs(url, 7, "/", 7);
    assert url[7..] == "/";
    assert StrChr(url, '/') == 0 && url[0..] == url;
  }

  lemma SchemeBehindSlash(url: string)
    requires url == "/http://"
    ensures StrStr(url, 0, SCHEME) == Some(1) && !HasScheme(url)
  {
    assert url[0] == '/' && SCHEME[0] == 'h';
    assert url[1..8] == SCHEME;
    assert forall i :: 0 <= i < 7 ==> url[1 + i] == url[1..8][i];
    StrStrIs(url, 0, SCHEME, 1);
  }

  lemma OtherSplit(url: string)
    requires !HasScheme(url)
    ensures var slash := StrChr(url, '/');
            SplitTarget(url).path == if slash < |url| then url[slash..] else "/"
  {
  }

  lemma CutIsSlash(path: string)
    requires PathOk(path)
    ensures Cut(path) == "/" <==> |path| == 1
  {
    assert |path| == 1 ==> path == "/";
  }
}
