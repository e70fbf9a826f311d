/**
 * Request handling in src/components/proxy_server.c: forward_request_to_server over the cache,
 * the connection pool and the receive loop, and handle_client_request around it.
 */
module ProxyServer {
  import C = Cache
  import P = ConnectionPool
  import CacheHash
  import CacheSpec
  import CacheStack
  import CText
  import HttpParser
  import PoolSpec
  import Receive
  import opened Wrappers

  const KEY_ROOM: nat := 511  // char cache_key[512]

  function CacheKey(path: string): string {
    if |path| <= KEY_ROOM then path else path[..KEY_ROOM]
  }

  function Codes(text: string): (codes: seq<int>)
    ensures |codes| == |text|
  {
    seq(|text|, i requires 0 <= i < |text| => text[i] as int)
  }

  lemma CodesInjective(a: string, b: string)
    ensures forall i :: 0 <= i < |a| ==> Codes(a)[i] == a[i] as int
    ensures Codes(a) == Codes(b) <==> a == b
  {
    assert forall i :: 0 <= i < |a| ==> Codes(a)[i] == a[i] as int;
    assert forall i :: 0 <= i < |b| ==> Codes(b)[i] == b[i] as int;
    if Codes(a) == Codes(b) {
      assert forall i :: 0 <= i < |a| ==> a[i] as int == b[i] as int;
    }
  }

  function Shorter(n: nat): nat {
    if n < 511 then n else 511
  }

  // The first 511 bytes are the same, or both end before that and are the same.
  ghost predicate SamePath(a: string, b: string) {
    Shorter(|a|) == Shorter(|b|) && forall i :: 0 <= i < |a| && i < 511 ==> a[i] == b[i]
  }

  lemma CacheKeyMeans(path: string)
    ensures |path| <= 511 ==> CacheKey(path) == path
    ensures |path| > 511 ==> CacheKey(path) == path[..511]
  {
  }

  lemma SamePathSameKey(a: string, b: string)
    requires SamePath(a, b)
    ensures CacheKey(a) == CacheKey(b)
  {
    var k, l := CacheKey(a), CacheKey(b);
    assert |k| == Shorter(|a|) && |l| == Shorter(|b|);
    assert forall i :: 0 <= i < |k| ==> k[i] == a[i] && l[i] == b[i];
  }

  // Two paths share an entry exactly when they agree on their first 511 bytes.
  lemma KeysMeet(a: string, b: string)
    ensures Codes(CacheKey(a)) == Codes(CacheKey(b)) <==> SamePath(a, b)
  {
    CacheKeyMeans(a);
    CacheKeyMeans(b);
    if Codes(CacheKey(a)) == Codes(CacheKey(b)) {
      CodesInjective(CacheKey(a), CacheKey(b));
      assert forall i :: 0 <= i < 511 && i < |a| ==> a[i] == CacheKey(a)[i];
      assert forall i :: 0 <= i < 511 && i < |b| ==> b[i] == CacheKey(b)[i];
    }
    if SamePath(a, b) {
      SamePathSameKey(a, b);
    }
  }

  // What the environment answers while one request is forwarded: the clock readings in order,
  // the two calls of create_persistent_connection, the send upstream, and memory for the add.
  datatype Env = Env(now: int, poolNow: int, connected: int, retried: int, sendOk: bool,
                     later: int, memory: bool, returnNow: int)

  datatype Event = Answer(data: seq<int>) | ErrorReply(code: int) | CloseClient

  class Client {
    var events: seq<Event>

    constructor ()
      ensures events == []
    {
      events := [];
    }

    method Tell(event: Event)
      modifies this
      ensures events == old(events) + [event]
    {
      events := events + [event];
    }
  }

  // ---------------------------------------------------------------- what forwarding does

  // `answer` is what the server would send; `sent` goes to the client, `log` on the cache's
  // log; `poolClosed` are sockets the pool closes and `dropped` those closed without it.
  datatype Forwarded = Forwarded(code: int, sent: Option<seq<int>>, log: seq<CacheSpec.Op>,
                                 slots: seq<PoolSpec.Slot>, poolClosed: seq<int>, dropped: seq<int>)

  function ServerSocket(found: PoolSpec.Effect, env: Env): int {
    if found.fd > 0 then found.fd else if env.connected >= 0 then env.connected else env.retried
  }

  // After a cache miss; the lookup is on the log already.
  function ForwardMiss(slots: seq<PoolSpec.Slot>, to: HttpParser.Endpoint, key: CacheHash.Url,
                       answer: seq<int>, env: Env): Forwarded
  {
    var found := PoolSpec.Lookup(slots, to.host, to.port, env.poolNow);
    var fd := ServerSocket(found, env);
    if fd < 0 then Forwarded(-1, None, [], found.slots, found.closed, [])
    else if !env.sendOk || answer == [] then Forwarded(-1, None, [], found.slots, found.closed, [fd])
    else
      var back := PoolSpec.GiveBack(found.slots, fd, to.host, to.port, true, env.returnNow);
      Forwarded(0, Some(answer), [CacheSpec.Add(key, answer, env.later, env.memory)],
                back.slots, found.closed + back.closed, [])
  }

  function ForwardKey(s: CacheSpec.State, slots: seq<PoolSpec.Slot>, to: HttpParser.Endpoint, key: CacheHash.Url,
                      answer: seq<int>, env: Env): Forwarded
  {
    var hit := CacheSpec.Lookup(s, key, env.now);
    if hit.Some? then Forwarded(0, Some(hit.value.data), [CacheSpec.Get(key, env.now)], slots, [], [])
    else
      var miss := ForwardMiss(slots, to, key, answer, env);
      miss.(log := [CacheSpec.Get(key, env.now)] + miss.log)
  }

  function Forwarding(s: CacheSpec.State, slots: seq<PoolSpec.Slot>, host: Option<string>, path: string,
                      answer: seq<int>, env: Env): Forwarded
  {
    if host.None? then Forwarded(-1, None, [], slots, [], [])
    else ForwardKey(s, slots, HttpParser.HostPort(host.value), Codes(CacheKey(path)), answer, env)
  }

  // ---------------------------------------------------------------- the methods

  ghost predicate Apart(cache: C.Cache, pool: P.ConnectionPool, buffer: array<char>) {
    && buffer.Length == Receive.MAX_RESPONSE_SIZE
    && buffer as object != cache.table && buffer as object != pool.connections
    && cache.table as object != pool.connections
  }

  // connection_pool_get, and one more connect when it fails.
  method Open(pool: P.ConnectionPool, host: string, port: int, env: Env) returns (fd: int)
    requires pool.Valid()
    modifies pool, pool.connections
    ensures pool.Valid()
    ensures var found := PoolSpec.Lookup(old(pool.connections[..]), host, port, env.poolNow);
            && pool.connections[..] == found.slots
            && pool.closed == old(pool.closed) + found.closed
            && fd == ServerSocket(found, env)
  {
    fd := pool.Get(host, port, env.poolNow, env.connected);
    if fd < 0 {
      fd := env.retried;
    }
  }

  // Sending the request and receiving; a failure closes the socket behind the pool's back.
  method Exchange(fd: int, up: Receive.Upstream, buffer: array<char>, env: Env)
    returns (total: nat, dropped: seq<int>)
    requires buffer.Length == Receive.MAX_RESPONSE_SIZE
    modifies up, buffer
    ensures var answer := Receive.Gather(old(up.arrivals), "");
            && total <= Receive.ROOM
            && buffer[..total] == (if env.sendOk then answer else "")
            && dropped == if !env.sendOk || answer == "" then [fd] else []
  {
    dropped := [];
    total := 0;
    if !env.sendOk {
      dropped := [fd];
    } else {
      total := Receive.ReceiveResponse(up, buffer);
      if total == 0 {
        dropped := [fd];
      }
    }
  }

  // Getting a connection and asking the server: no byte means failure.
  method Ask(pool: P.ConnectionPool, to: HttpParser.Endpoint, up: Receive.Upstream, buffer: array<char>, env: Env)
    returns (fd: int, total: nat, dropped: seq<int>)
    requires pool.Valid() && buffer.Length == Receive.MAX_RESPONSE_SIZE
    requires buffer as object != pool.connections
    modifies pool, pool.connections, up, buffer
    ensures pool.Valid()
    ensures var found := PoolSpec.Lookup(old(pool.connections[..]), to.host, to.port, env.poolNow);
            var answer := Receive.Gather(old(up.arrivals), "");
            && fd == ServerSocket(found, env)
            && pool.connections[..] == found.slots && pool.closed == old(pool.closed) + found.closed
            && total <= buffer.Length
            && buffer[..total] == (if fd >= 0 && env.sendOk then answer else "")
            && dropped == if fd >= 0 && (!env.sendOk || answer == "") then [fd] else []
  {
    fd := Open(pool, to.host, to.port, env);
    if fd < 0 {
      total, dropped := 0, [];
    } else {
      total, dropped := Exchange(fd, up, buffer, env);
    }
  }

  // A clock reading that continues the cache's log.
  ghost predicate NotBefore(cache: C.Cache, now: int)
    reads cache
  {
    && cache.start <= now
    && forall i :: 0 <= i < |cache.history| ==> cache.history[i].now <= now
  }

  lemma OneMoreIsTimely(start: int, ops: seq<CacheSpec.Op>, op: CacheSpec.Op)
    requires CacheSpec.Timely(start, ops)
    requires start <= op.now && forall i :: 0 <= i < |ops| ==> ops[i].now <= op.now
    ensures CacheSpec.Timely(start, ops + [op])
  {
  }

  // The answer goes to the client and the cache, the socket back to the pool.
  method Finish(data: seq<int>, fd: int, client: Client, cache: C.Cache, key: CacheHash.Url,
                pool: P.ConnectionPool, to: HttpParser.Endpoint, env: Env, ghost buffer: array<char>)
    requires cache.Valid() && pool.Valid() && Apart(cache, pool, buffer) && NotBefore(cache, env.later)
    modifies client, cache, cache.table, C.Members(cache.lru), pool, pool.connections
    ensures cache.Valid() && pool.Valid()
    ensures fresh(C.Members(cache.lru) - old(C.Members(cache.lru)))
    ensures client.events == old(client.events) + [Answer(data)]
    ensures cache.history == old(cache.history) + [CacheSpec.Add(key, data, env.later, env.memory)]
    ensures var back := PoolSpec.GiveBack(old(pool.connections[..]), fd, to.host, to.port, true, env.returnNow);
            pool.connections[..] == back.slots && pool.closed == old(pool.closed) + back.closed
  {
    client.Tell(Answer(data));
    OneMoreIsTimely(cache.start, cache.history, CacheSpec.Add(key, data, env.later, env.memory));
    var _ := cache.Add(key, data, env.later, env.memory);
    pool.Return(fd, to.host, to.port, true, env.returnNow);
  }

  // forward_request_to_server after a cache miss.
  method Fetch(client: Client, cache: C.Cache, key: CacheHash.Url, pool: P.ConnectionPool,
               to: HttpParser.Endpoint, up: Receive.Upstream, buffer: array<char>, env: Env)
    returns (code: int, dropped: seq<int>)
    requires cache.Valid() && pool.Valid() && Apart(cache, pool, buffer) && NotBefore(cache, env.later)
    modifies client, cache, cache.table, C.Members(cache.lru), pool, pool.connections, up, buffer
    ensures cache.Valid() && pool.Valid()
    ensures fresh(C.Members(cache.lru) - old(C.Members(cache.lru)))
    ensures var f := ForwardMiss(old(pool.connections[..]), to, key, Codes(Receive.Gather(old(up.arrivals), "")), env);
            && code == f.code && dropped == f.dropped
            && client.events == old(client.events) + Told(f.sent)
            && cache.history == old(cache.history) + f.log
            && pool.connections[..] == f.slots && pool.closed == old(pool.closed) + f.poolClosed
  {
    var fd, total;
    fd, total, dropped := Ask(pool, to, up, buffer, env);
    assert cache.Valid() && NotBefore(cache, env.later);
    var data := Codes(buffer[..total]);
    ghost var back := PoolSpec.GiveBack(pool.connections[..], fd, to.host, to.port, true, env.returnNow);
    ghost var found := PoolSpec.Lookup(old(pool.connections[..]), to.host, to.port, env.poolNow);
    Regroup(old(pool.closed), found.closed, back.closed);
    if total > 0 {
      assert data == Codes(Receive.Gather(old(up.arrivals), ""));
      Finish(data, fd, client, cache, key, pool, to, env, buffer);
      code := 0;
    } else {
      code := -1;
    }
  }

  lemma Regroup<T>(a: seq<T>, b: seq<T>, c: seq<T>)
    ensures (a + b) + c == a + (b + c)
  {
  }

  function Told(sent: Option<seq<int>>): seq<Event> {
    if sent.Some? then [Answer(sent.value)] else []
  }

  // The cache's share: a hit is sent at once.
  method FromCache(client: Client, cache: C.Cache, key: CacheHash.Url, env: Env) returns (hit: bool)
    requires cache.Valid() && NotBefore(cache, env.now) && env.now <= env.later
    modifies client, cache, C.Members(cache.lru)
    ensures cache.Valid() && C.Members(cache.lru) == old(C.Members(cache.lru))
    ensures cache.history == old(cache.history) + [CacheSpec.Get(key, env.now)] && NotBefore(cache, env.later)
    ensures var answer := CacheSpec.Lookup(old(cache.View()), key, env.now);
            && hit == answer.Some?
            && client.events == if hit then old(client.events) + [Answer(answer.value.data)] else old(client.events)
  {
    OneMoreIsTimely(cache.start, cache.history, CacheSpec.Get(key, env.now));
    var node := cache.Get(key, env.now);
    hit := node != null;
    if hit {
      ghost var valid := cache.Valid();
      client.Tell(Answer(node.data));
      assert cache.Valid() == valid;
    }
  }

  // forward_request_to_server once the host is known.
  method CacheOrFetch(client: Client, cache: C.Cache, key: CacheHash.Url, pool: P.ConnectionPool,
                      to: HttpParser.Endpoint, up: Receive.Upstream, buffer: array<char>, env: Env)
    returns (code: int, dropped: seq<int>)
    requires cache.Valid() && pool.Valid() && Apart(cache, pool, buffer) && NotBefore(cache, env.now) && env.now <= env.later
    modifies client, cache, cache.table, C.Members(cache.lru), pool, pool.connections, up, buffer
    ensures cache.Valid() && pool.Valid()
    ensures fresh(C.Members(cache.lru) - old(C.Members(cache.lru)))
    ensures var f := ForwardKey(old(cache.View()), old(pool.connections[..]), to, key,
                                Codes(Receive.Gather(old(up.arrivals), "")), env);
            && code == f.code && dropped == f.dropped
            && client.events == old(client.events) + Told(f.sent)
            && cache.history == old(cache.history) + f.log
            && pool.connections[..] == f.slots && pool.closed == old(pool.closed) + f.poolClosed
  {
    ghost var miss := ForwardMiss(pool.connections[..], to, key, Codes(Receive.Gather(up.arrivals, "")), env);
    Regroup(cache.history, [CacheSpec.Get(key, env.now)], miss.log);
    var hit := FromCache(client, cache, key, env);
    assert pool.Valid() && pool.connections[..] == old(pool.connections[..]);
    if hit {
      return 0, [];
    }
    code, dropped := Fetch(client, cache, key, pool, to, up, buffer, env);
  }

  // forward_request_to_server: without a host nothing happens; a hit answers from the cache;
  // a miss goes through the pool and the receive loop.
  method Forward(host: Option<string>, path: string, client: Client, cache: C.Cache, pool: P.ConnectionPool,
                 up: Receive.Upstream, buffer: array<char>, env: Env)
    returns (code: int, dropped: seq<int>)
    requires cache.Valid() && pool.Valid() && Apart(cache, pool, buffer) && NotBefore(cache, env.now) && env.now <= env.later
    modifies client, cache, cache.table, C.Members(cache.lru), pool, pool.connections, up, buffer
    ensures cache.Valid() && pool.Valid()
    ensures fresh(C.Members(cache.lru) - old(C.Members(cache.lru)))
    ensures var f := Forwarding(old(cache.View()), old(pool.connections[..]), host, path,
                                Codes(Receive.Gather(old(up.arrivals), "")), env);
            && code == f.code && dropped == f.dropped
            && client.events == old(client.events) + Told(f.sent)
            && cache.history == old(cache.history) + f.log
            && pool.connections[..] == f.slots && pool.closed == old(pool.closed) + f.poolClosed
  {
    if host == None {
      return -1, [];
    }
    var name, port := HttpParser.ExtractHostPort(host.value);
    var key := Codes(CacheKey(path));
    code, dropped := CacheOrFetch(client, cache, key, pool, HttpParser.Endpoint(name, port), up, buffer, env);
  }

  // ---------------------------------------------------------------- what a request amounts to

  // The client is told exactly one thing before its socket is closed.  It is sent an answer
  // exactly when forwarding succeeds: the data of the most recent add for the key, while that is
  // unexpired, or else exactly the bytes the server sent.  The key is the path up to 511 bytes.
  lemma AnswerMeaning(capacity: nat, start: int, before: seq<CacheSpec.Op>, slots: seq<PoolSpec.Slot>,
                      host: Option<string>, path: string, answer: seq<int>, env: Env)
    requires 0 < capacity && CacheSpec.Timely(start, before)
    ensures forall other :: Codes(CacheKey(other)) == Codes(CacheKey(path)) <==> SamePath(other, path)
    ensures var s, key := CacheSpec.Run(capacity, start, before), Codes(if |path| <= 511 then path else path[..511]);
            var f := Forwarding(s, slots, host, path, answer, env);
            && (f.sent.Some? <==> f.code == 0)
            && Reply(f) == [if f.sent.Some? then Answer(f.sent.value) else ErrorReply(502), CloseClient]
            && (f.sent.Some? ==>
                 || (CacheSpec.Latest(before, key).Some? && f.sent == Some(CacheSpec.Latest(before, key).value.data)
                     && env.now - CacheSpec.Latest(before, key).value.stamp < 300)
                 || (CacheSpec.Lookup(s, key, env.now) == None && f.sent == Some(answer) && answer != []))
  {
    var s, key := CacheSpec.Run(capacity, start, before), Codes(CacheKey(path));
    CacheKeyMeans(path);
    forall other
      ensures Codes(CacheKey(other)) == Codes(CacheKey(path)) <==> SamePath(other, path)
    {
      KeysMeet(other, path);
    }
    if CacheSpec.Lookup(s, key, env.now).Some? {
      CacheSpec.HitIsLatestAdd(capacity, start, before, key, env.now);
    }
  }

  // A request that is answered, with memory for the add, is one step of the get-then-add
  // driver of the stack-distance theorem, whatever time passes between lookup and add.
  lemma ForwardIsServe(capacity: nat, start: int, before: seq<CacheSpec.Op>, slots: seq<PoolSpec.Slot>,
                       host: Option<string>, path: string, answer: seq<int>, env: Env)
    requires env.memory
    ensures var s := CacheSpec.Run(capacity, start, before);
            var f := Forwarding(s, slots, host, path, answer, env);
            var r := CacheStack.Request(Codes(if |path| <= 511 then path else path[..511]), answer, env.now, env.later);
            f.code == 0 ==> CacheSpec.Run(capacity, start, before + f.log) == CacheStack.Serve(s, r)
  {
    var s, key := CacheSpec.Run(capacity, start, before), Codes(CacheKey(path));
    var get, add := CacheSpec.Get(key, env.now), CacheSpec.Add(key, answer, env.later, env.memory);
    CacheSpec.RunSnoc(capacity, start, before, get);
    CacheSpec.RunSnoc(capacity, start, before + [get], add);
    assert before + ([get] + [add]) == before + [get] + [add];
  }

  // ---------------------------------------------------------------- handle_client_request

  // validate_http_request: the methods the proxy accepts.
  predicate Validate(request: string) {
    || CText.MatchAt(request, 0, "GET ")
    || CText.MatchAt(request, 0, "POST ")
    || CText.MatchAt(request, 0, "PUT ")
    || CText.MatchAt(request, 0, "DELETE ")
    || CText.MatchAt(request, 0, "HEAD ")
  }

  predicate Accepted(request: string, created: bool) {
    request != "" && Validate(request) && created && CText.StrStr(request, 0, CText.CRLF).Some?
  }

  function HostOf(request: string): Option<string>
    requires CText.StrStr(request, 0, CText.CRLF).Some?
  {
    HttpParser.FirstHost(HttpParser.HeaderLines(request, |HttpParser.LineOf(request)| + 2))
  }

  function PathOf(request: string): Option<string>
    requires CText.StrStr(request, 0, CText.CRLF).Some?
  {
    HttpParser.ReadRequestLine(HttpParser.LineOf(request)).path
  }

  // What forwarding does with an accepted request.
  function Handling(s: CacheSpec.State, slots: seq<PoolSpec.Slot>, request: string, answer: seq<int>, env: Env): Forwarded
    requires CText.StrStr(request, 0, CText.CRLF).Some?
  {
    Forwarding(s, slots, HostOf(request), HttpParser.OrElse(PathOf(request), ""), answer, env)
  }

  // On every path the client is told at most one thing, and then the socket is closed once:
  // nothing if nothing was received, the answer exactly if the request is accepted and
  // forwarded, else one error.
  method HandleClientRequest(client: Client, request: string, created: bool, cache: C.Cache,
                             pool: P.ConnectionPool, up: Receive.Upstream, buffer: array<char>, env: Env)
    returns (dropped: seq<int>)
    requires cache.Valid() && pool.Valid() && Apart(cache, pool, buffer)
    requires NotBefore(cache, env.now) && env.now <= env.later
    requires Accepted(request, created) && HostOf(request).Some? ==> PathOf(request).Some?
    modifies client, cache, cache.table, C.Members(cache.lru), pool, pool.connections, up, buffer
    ensures cache.Valid() && pool.Valid()
    ensures !Accepted(request, created) ==>
              && client.events == old(client.events) + Refusal(request, created)
              && cache.history == old(cache.history) && dropped == []
              && pool.connections[..] == old(pool.connections[..]) && pool.closed == old(pool.closed)
    ensures Accepted(request, created) ==>
              var f := Handling(old(cache.View()), old(pool.connections[..]), request,
                                Codes(Receive.Gather(old(up.arrivals), "")), env);
              && client.events == old(client.events) + Reply(f)
              && cache.history == old(cache.history) + f.log && dropped == f.dropped
              && pool.connections[..] == f.slots && pool.closed == old(pool.closed) + f.poolClosed
  {
    dropped := [];
    if request == "" {
      client.Tell(CloseClient);
      return;
    }
    if !Validate(request) {
      Refuse(client, 400);
      return;
    }
    if !created {
      Refuse(client, 500);
      return;
    }
    var ok, host, path := ReadRequest(request);
    if !ok {
      Refuse(client, 400);
      return;
    }
    dropped := Handle(host, path, client, cache, pool, up, buffer, env);
  }

  method ReadRequest(request: string) returns (ok: bool, host: Option<string>, path: string)
    requires request != ""
    ensures ok == CText.StrStr(request, 0, CText.CRLF).Some?
    ensures ok ==> host == HostOf(request) && path == HttpParser.OrElse(PathOf(request), "")
  {
    var parsed := new HttpParser.ParsedRequest();
    var code := parsed.Parse(request);
    return code == 0, parsed.host, HttpParser.OrElse(parsed.path, "");
  }

  // Forwarding, the error reply if that fails, and the close.
  method Handle(host: Option<string>, path: string, client: Client, cache: C.Cache, pool: P.ConnectionPool,
                up: Receive.Upstream, buffer: array<char>, env: Env)
    returns (dropped: seq<int>)
    requires cache.Valid() && pool.Valid() && Apart(cache, pool, buffer) && NotBefore(cache, env.now) && env.now <= env.later
    modifies client, cache, cache.table, C.Members(cache.lru), pool, pool.connections, up, buffer
    ensures cache.Valid() && pool.Valid()
    ensures var f := Forwarding(old(cache.View()), old(pool.connections[..]), host, path,
                                Codes(Receive.Gather(old(up.arrivals), "")), env);
            && client.events == old(client.events) + Reply(f)
            && cache.history == old(cache.history) + f.log
            && pool.connections[..] == f.slots && pool.closed == old(pool.closed) + f.poolClosed
            && dropped == f.dropped
  {
    ghost var f := Forwarding(cache.View(), pool.connections[..], host, path,
                              Codes(Receive.Gather(up.arrivals, "")), env);
    Regroup(client.events, Told(f.sent), Ending(f.code));
    var code;
    code, dropped := Forward(host, path, client, cache, pool, up, buffer, env);
    Conclude(client, code);
    assert cache.Valid() && pool.Valid();
  }

  method Refuse(client: Client, code: int)
    modifies client
    ensures client.events == old(client.events) + [ErrorReply(code), CloseClient]
  {
    client.Tell(ErrorReply(code));
    client.Tell(CloseClient);
  }

  method Conclude(client: Client, code: int)
    modifies client
    ensures client.events == old(client.events) + Ending(code)
  {
    if code < 0 {
      client.Tell(ErrorReply(502));
    }
    client.Tell(CloseClient);
  }

  function Ending(code: int): seq<Event> {
    if code < 0 then [ErrorReply(502), CloseClient] else [CloseClient]
  }

  function Refusal(request: string, created: bool): seq<Event> {
    if request == "" then [CloseClient]
    else if Validate(request) && !created then [ErrorReply(500), CloseClient]
    else [ErrorReply(400), CloseClient]
  }

  function Reply(f: Forwarded): seq<Event> {
    Told(f.sent) + Ending(f.code)
  }
}
