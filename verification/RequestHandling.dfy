/**
 * What handle_client_request and forward_request_to_server (src/components/proxy_server.c) make
 * of the text of a request: which requests are accepted, what they are forwarded as, and when
 * forwarding succeeds.
 */
module RequestHandling {
  import opened CText
  import opened HttpParser
  import opened ProxyServer
  import opened RequestText
  import opened Wrappers
  import CacheHash
  import CacheSpec
  import PoolSpec

  // ---------------------------------------------------------------- accepted methods

  predicate IsMethod(word: string) {
    word in ["GET", "POST", "PUT", "DELETE", "HEAD"]
  }

  lemma FirstWordIs(word: string, rest: string, wanted: string)
    requires ' ' !in word && ' ' !in wanted
    ensures MatchAt(word + " " + rest, 0, wanted + " ") <==> word == wanted
  {
    var text, pat := word + " " + rest, wanted + " ";
    assert text[|word|] == ' ' && pat[|wanted|] == ' ';
    assert forall i :: 0 <= i < |word| ==> text[i] == word[i];
    assert forall i :: 0 <= i < |wanted| ==> pat[i] == wanted[i];
    if MatchAt(text, 0, pat) {
      forall i | 0 <= i < |pat|
        ensures text[i] == pat[i]
      {
        assert text[0 + i] == pat[i];
      }
    }
  }

  // A request is let through exactly when its first word is one of the five methods.
  lemma MethodsLetThrough(word: string, rest: string)
    requires ' ' !in word
    ensures Validate(word + " " + rest) <==> IsMethod(word)
  {
    FirstWordIs(word, rest, "GET");
    FirstWordIs(word, rest, "POST");
    FirstWordIs(word, rest, "PUT");
    FirstWordIs(word, rest, "DELETE");
    FirstWordIs(word, rest, "HEAD");
    assert "GET" + " " == "GET " && "POST" + " " == "POST " && "PUT" + " " == "PUT ";
    assert "DELETE" + " " == "DELETE " && "HEAD" + " " == "HEAD ";
  }

  lemma EndsInSpace(request: string, pat: string)
    requires pat != "" && pat[|pat| - 1] == ' ' && MatchAt(request, 0, pat)
    ensures ' ' in request
  {
    assert request[0 + (|pat| - 1)] == ' ';
  }

  lemma OneWordIsRefused(request: string)
    requires ' ' !in request
    ensures !Validate(request)
  {
    if Validate(request) {
      var pat :| pat in ["GET ", "POST ", "PUT ", "DELETE ", "HEAD "] && MatchAt(request, 0, pat);
      EndsInSpace(request, pat);
    }
  }

  // Accepted: a method, memory for the request object, and a line end before any NUL.
  lemma AcceptedMeans(word: string, rest: string, created: bool)
    requires ' ' !in word
    ensures Accepted(word + " " + rest, created) <==>
            created && IsMethod(word) && exists k: nat :: LineEnd(word + " " + rest, 0, k)
  {
    var text := word + " " + rest;
    MethodsLetThrough(word, rest);
    forall k: nat
      ensures LineEnd(text, 0, k) <==> StrStr(text, 0, CRLF) == Some(k)
    {
      FindsLineEnd(text, 0, k);
    }
    if StrStr(text, 0, CRLF).Some? {
      assert LineEnd(text, 0, StrStr(text, 0, CRLF).value);
    }
  }

  // A refused request is told why, once, and closed: nothing when nothing came, 400 for a
  // method that is not let through or a missing line end, 500 without memory.
  lemma RefusalMeans(word: string, rest: string, created: bool)
    requires ' ' !in word
    ensures Refusal("", created) == [CloseClient]
    ensures word != "" ==> Refusal(word, created) == [ErrorReply(400), CloseClient]
    ensures !IsMethod(word) ==> Refusal(word + " " + rest, created) == [ErrorReply(400), CloseClient]
    ensures IsMethod(word) ==> Refusal(word + " " + rest, false) == [ErrorReply(500), CloseClient]
    ensures IsMethod(word) ==> Refusal(word + " " + rest, true) == [ErrorReply(400), CloseClient]
  {
    OneWordIsRefused(word);
    MethodsLetThrough(word, rest);
  }

  // ---------------------------------------------------------------- what is forwarded

  lemma MethodIsWord(word: string)
    requires IsMethod(word)
    ensures WordOk(word)
  {
    NoReturnIsOneLine(word);
  }

  lemma FirstLineReads(word: string, path: string, version: string)
    requires WordOk(word) && WordOk(path) && WordOk(version)
    ensures OneLine(word + " " + path + " " + version)
    ensures ReadRequestLine(word + " " + path + " " + version).path == Some(path)
  {
    JoinedIsOneLine(word, path);
    JoinedIsOneLine(word + " " + path, version);
    ReadThreeWords(word, path, version);
  }

  lemma FieldsOfText(line: string, headers: seq<string>)
    requires OneLine(line) && AllLinesOk(headers)
    ensures var text := Request(line, headers);
            && StrStr(text, 0, CRLF).Some?
            && HostOf(text) == FirstHost(headers) && PathOf(text) == ReadRequestLine(line).path
  {
    RequestReads(line, headers);
  }

  lemma LineLetsThrough(word: string, path: string, version: string, tail: string)
    requires IsMethod(word)
    ensures Validate(word + " " + path + " " + version + tail)
  {
    var rest := FirstWordFirst(word, path, version, tail);
    MethodsLetThrough(word, rest);
  }

  // A printed request: its text is accepted, and forwarding gets the host of its first Host
  // header and the second word of its first line.
  lemma PrintedIsHandled(word: string, path: string, version: string, headers: seq<string>)
    requires IsMethod(word) && WordOk(path) && WordOk(version) && AllLinesOk(headers)
    ensures var text := Request(word + " " + path + " " + version, headers);
            && Accepted(text, true)
            && HostOf(text) == FirstHost(headers) && PathOf(text) == Some(path)
  {
    MethodIsWord(word);
    FirstLineReads(word, path, version);
    FieldsOfText(word + " " + path + " " + version, headers);
    LineLetsThrough(word, path, version, CRLF + (PrintLines(headers) + CRLF));
  }

  lemma FirstWordFirst(a: string, b: string, c: string, tail: string) returns (rest: string)
    ensures a + " " + b + " " + c + tail == a + " " + rest
  {
    rest := b + " " + c + tail;
  }

  ghost predicate NamesHost(headers: seq<string>, value: string) {
    exists k, name, spaces ::
      && 0 <= k < |headers| && ':' !in name && IsHost(name) && headers[k] == HeaderLine(name, spaces, value)
      && forall j :: 0 <= j < k ==> NotHost(headers[j])
  }

  // The host and port of the first Host header, the path whole up to 511 bytes, whatever the
  // method, the version and the other headers.
  lemma ForwardedAs(word: string, path: string, version: string, headers: seq<string>,
                    host: string, port: nat, s: CacheSpec.State, slots: seq<PoolSpec.Slot>,
                    answer: seq<int>, env: Env)
    requires IsMethod(word) && WordOk(path) && WordOk(version) && AllLinesOk(headers)
    requires ':' !in host && Trimmed(host) && 0 < port <= 65535
    requires NamesHost(headers, host + (":" + Decimal(port))) || (NamesHost(headers, host) && port == 80)
    ensures var text := Request(word + " " + path + " " + version, headers);
            && Accepted(text, true)
            && Handling(s, slots, text, answer, env)
                 == ForwardKey(s, slots, Endpoint(host, port),
                               Codes(if |path| <= 511 then path else path[..511]), answer, env)
  {
    PrintedIsHandled(word, path, version, headers);
    HostPortRoundTrip(host, port);
    var value := if NamesHost(headers, host + (":" + Decimal(port))) then host + (":" + Decimal(port)) else host;
    var k, name, spaces :|
      && 0 <= k < |headers| && ':' !in name && IsHost(name) && headers[k] == HeaderLine(name, spaces, value)
      && forall j :: 0 <= j < k ==> NotHost(headers[j]);
    assert Trimmed(value);
    HostOfHeaders(headers, k, name, spaces, value);
  }

  // Without a Host header nothing is looked up, forwarded or added: the client gets 502.
  lemma NoHostIsRefused(word: string, path: string, version: string, headers: seq<string>,
                        s: CacheSpec.State, slots: seq<PoolSpec.Slot>, answer: seq<int>, env: Env)
    requires IsMethod(word) && WordOk(path) && WordOk(version) && AllLinesOk(headers)
    requires forall j :: 0 <= j < |headers| ==> NotHost(headers[j])
    ensures var text := Request(word + " " + path + " " + version, headers);
            && Accepted(text, true)
            && var f := Handling(s, slots, text, answer, env);
            && Reply(f) == [ErrorReply(502), CloseClient]
            && f.log == [] && f.slots == slots && f.poolClosed == [] && f.dropped == []
  {
    PrintedIsHandled(word, path, version, headers);
    NoHostInHeaders(headers);
  }

  // ---------------------------------------------------------------- when forwarding succeeds

  // A miss is answered exactly when the pool has a socket or one of the two connects succeeds,
  // the send works and a byte arrives; then, and only then, it is added to the cache.
  lemma MissSucceeds(slots: seq<PoolSpec.Slot>, to: Endpoint, key: CacheHash.Url, answer: seq<int>, env: Env)
    ensures var f, found := ForwardMiss(slots, to, key, answer, env), PoolSpec.Lookup(slots, to.host, to.port, env.poolNow);
            var done := (found.fd > 0 || env.connected >= 0 || env.retried >= 0) && env.sendOk && answer != [];
            && f.code == (if done then 0 else -1)
            && f.sent == (if done then Some(answer) else None)
            && f.log == if done then [CacheSpec.Add(key, answer, env.later, env.memory)] else []
  {
  }

  // The socket is the one the pool finds, else that of the first connect, else of the second;
  // on success it goes back to the pool, on failure it is dropped.
  lemma MissSocket(slots: seq<PoolSpec.Slot>, to: Endpoint, key: CacheHash.Url, answer: seq<int>, env: Env)
    ensures var f, found := ForwardMiss(slots, to, key, answer, env), PoolSpec.Lookup(slots, to.host, to.port, env.poolNow);
            var fd := if found.fd > 0 then found.fd else if env.connected >= 0 then env.connected else env.retried;
            var back := PoolSpec.GiveBack(found.slots, fd, to.host, to.port, true, env.returnNow);
            if f.code == 0 then f.slots == back.slots && f.poolClosed == found.closed + back.closed && f.dropped == []
            else f.slots == found.slots && f.poolClosed == found.closed && f.dropped == if fd >= 0 then [fd] else []
  {
  }

  // A hit sends the entry, touches it, and leaves the pool and every socket alone.
  lemma HitStaysInside(s: CacheSpec.State, slots: seq<PoolSpec.Slot>, to: Endpoint, key: CacheHash.Url,
                       answer: seq<int>, env: Env)
    requires CacheSpec.Lookup(s, key, env.now).Some?
    ensures var f := ForwardKey(s, slots, to, key, answer, env);
            && f.code == 0 && f.sent == Some(CacheSpec.Lookup(s, key, env.now).value.data)
            && f.log == [CacheSpec.Get(key, env.now)]
            && f.slots == slots && f.poolClosed == [] && f.dropped == []
  {
  }

  // A miss is looked up first.
  lemma MissGoesOut(s: CacheSpec.State, slots: seq<PoolSpec.Slot>, to: Endpoint, key: CacheHash.Url,
                    answer: seq<int>, env: Env)
    requires CacheSpec.Lookup(s, key, env.now) == None
    ensures var f, miss := ForwardKey(s, slots, to, key, answer, env), ForwardMiss(slots, to, key, answer, env);
            && f.log == [CacheSpec.Get(key, env.now)] + miss.log && f.code == miss.code && f.sent == miss.sent
            && f.slots == miss.slots && f.poolClosed == miss.poolClosed && f.dropped == miss.dropped
  {
  }
}
