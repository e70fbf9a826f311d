/**
 * Whose page a client is sent: runs of requests through forward_request_to_server
 * (src/components/proxy_server.c), one after the other, with the cache and the connection pool
 * carried from each to the next.
 */
module Pages {
  import opened ProxyServer
  import opened Wrappers
  import CacheHash
  import CacheSpec
  import HttpParser
  import PoolSpec
  import RequestHandling

  function Key(path: string): CacheHash.Url {
    Codes(CacheKey(path))
  }

  // ---------------------------------------------------------------- runs of requests

  datatype Request = Request(host: Option<string>, path: string, answer: seq<int>, env: Env)

  // The cache's log and the pool's slots between two requests.
  datatype Proxy = Proxy(log: seq<CacheSpec.Op>, slots: seq<PoolSpec.Slot>)

  datatype Setup = Setup(capacity: nat, start: int, slots: seq<PoolSpec.Slot>)

  function Cached(c: Setup, p: Proxy): CacheSpec.State {
    CacheSpec.Run(c.capacity, c.start, p.log)
  }

  function Outcome(c: Setup, p: Proxy, r: Request): Forwarded {
    Forwarding(Cached(c, p), p.slots, r.host, r.path, r.answer, r.env)
  }

  function Serve(c: Setup, p: Proxy, r: Request): Proxy {
    Proxy(p.log + Outcome(c, p, r).log, Outcome(c, p, r).slots)
  }

  function Served(c: Setup, requests: seq<Request>): Proxy {
    if requests == [] then Proxy([], c.slots)
    else Serve(c, Served(c, requests[..|requests| - 1]), requests[|requests| - 1])
  }

  predicate IsHit(c: Setup, p: Proxy, r: Request) {
    r.host.Some? && CacheSpec.Lookup(Cached(c, p), Key(r.path), r.env.now).Some?
  }

  // The request is answered by its own server, and the answer is kept.
  predicate Keeps(c: Setup, p: Proxy, r: Request) {
    r.host.Some? && !IsHit(c, p, r) && Outcome(c, p, r).code == 0 && r.env.memory
  }

  // Which requests of a run were kept.
  function KeptFlags(c: Setup, requests: seq<Request>): (flags: seq<bool>)
    ensures |flags| == |requests|
  {
    if requests == [] then []
    else
      var before, r := requests[..|requests| - 1], requests[|requests| - 1];
      KeptFlags(c, before) + [Keeps(c, Served(c, before), r)]
  }

  predicate Kept(c: Setup, requests: seq<Request>, i: int) {
    0 <= i < |requests| && KeptFlags(c, requests)[i]
  }

  lemma OneMore(c: Setup, before: seq<Request>, r: Request)
    ensures Served(c, before + [r]) == Serve(c, Served(c, before), r)
    ensures KeptFlags(c, before + [r]) == KeptFlags(c, before) + [Keeps(c, Served(c, before), r)]
  {
    assert (before + [r])[..|before|] == before;
  }

  lemma {:induction false} KeptMeans(c: Setup, requests: seq<Request>, i: nat)
    requires i < |requests|
    ensures Kept(c, requests, i) == Keeps(c, Served(c, requests[..i]), requests[i])
  {
    var n := |requests| - 1;
    var before, r := requests[..n], requests[n];
    assert requests == before + [r];
    OneMore(c, before, r);
    if i < n {
      KeptMeans(c, before, i);
      assert before[..i] == requests[..i];
    }
  }

  ghost predicate LastIn(flags: seq<bool>, requests: seq<Request>, path: string, j: int)
    requires |flags| == |requests|
  {
    && 0 <= j < |requests| && flags[j] && SamePath(requests[j].path, path)
    && forall i :: j < i < |requests| && flags[i] ==> !SamePath(requests[i].path, path)
  }

  ghost predicate NoneIn(flags: seq<bool>, requests: seq<Request>, path: string)
    requires |flags| == |requests|
  {
    forall i :: 0 <= i < |requests| && flags[i] ==> !SamePath(requests[i].path, path)
  }

  // Request j was the last for this path whose answer was kept.
  ghost predicate LastKept(c: Setup, requests: seq<Request>, path: string, j: int) {
    LastIn(KeptFlags(c, requests), requests, path, j)
  }

  // One more request that is not kept for the path changes nothing about which one was.
  lemma StillLast(flags: seq<bool>, requests: seq<Request>, flag: bool, r: Request, path: string, j: int)
    requires |flags| == |requests| && (flag ==> !SamePath(r.path, path))
    ensures LastIn(flags, requests, path, j) ==> LastIn(flags + [flag], requests + [r], path, j)
    ensures NoneIn(flags, requests, path) ==> NoneIn(flags + [flag], requests + [r], path)
  {
  }

  // What one request puts on the log: nothing without a host, else a lookup, and behind it an
  // add exactly when its own server answered.
  lemma LogGrows(c: Setup, p: Proxy, r: Request)
    ensures var get, add := CacheSpec.Get(Key(r.path), r.env.now), CacheSpec.Add(Key(r.path), r.answer, r.env.later, r.env.memory);
            Serve(c, p, r).log ==
              if r.host.None? then p.log
              else if IsHit(c, p, r) || Outcome(c, p, r).code != 0 then p.log + [get]
              else p.log + [get] + [add]
    ensures r.host.Some? && !IsHit(c, p, r) && Outcome(c, p, r).code == 0 ==> r.answer != []
  {
    var get, add := CacheSpec.Get(Key(r.path), r.env.now), CacheSpec.Add(Key(r.path), r.answer, r.env.later, r.env.memory);
    if r.host.Some? {
      RequestHandling.MissSucceeds(p.slots, HttpParser.HostPort(r.host.value), Key(r.path), r.answer, r.env);
    }
    assert p.log + [] == p.log && [get] + [] == [get];
    assert p.log + ([get] + [add]) == p.log + [get] + [add];
  }

  // And what that means for the latest add for a path.
  lemma LatestAfter(c: Setup, p: Proxy, r: Request, path: string)
    ensures var latest := CacheSpec.Latest(Serve(c, p, r).log, Key(path));
            if Keeps(c, p, r) && SamePath(r.path, path) then latest.Some? && latest.value.data == r.answer && latest.value.stamp == r.env.later
            else latest == CacheSpec.Latest(p.log, Key(path))
  {
    var get, add := CacheSpec.Get(Key(r.path), r.env.now), CacheSpec.Add(Key(r.path), r.answer, r.env.later, r.env.memory);
    KeysMeet(r.path, path);
    CacheSpec.LatestSnoc(p.log, get, Key(path));
    CacheSpec.LatestSnoc(p.log + [get], add, Key(path));
    LogGrows(c, p, r);
  }

  // What the log's latest add for a path tells about the requests.
  ghost predicate LogTells(c: Setup, requests: seq<Request>, path: string, j: int) {
    var latest := CacheSpec.Latest(Served(c, requests).log, Key(path));
    if latest.Some?
    then LastKept(c, requests, path, j) && latest.value.data == requests[j].answer
         && latest.value.stamp == requests[j].env.later
    else NoneIn(KeptFlags(c, requests), requests, path)
  }

  lemma LogTellsNow(c: Setup, before: seq<Request>, r: Request, path: string)
    requires Keeps(c, Served(c, before), r) && SamePath(r.path, path)
    ensures LogTells(c, before + [r], path, |before|)
  {
    OneMore(c, before, r);
    LatestAfter(c, Served(c, before), r, path);
  }

  lemma LogTellsStill(c: Setup, before: seq<Request>, r: Request, path: string, j: int)
    requires LogTells(c, before, path, j)
    requires Keeps(c, Served(c, before), r) ==> !SamePath(r.path, path)
    ensures LogTells(c, before + [r], path, j)
  {
    OneMore(c, before, r);
    LatestAfter(c, Served(c, before), r, path);
    StillLast(KeptFlags(c, before), before, Keeps(c, Served(c, before), r), r, path, j);
  }

  lemma {:induction false} LatestIsKept(c: Setup, requests: seq<Request>, path: string) returns (j: int)
    ensures LogTells(c, requests, path, j)
  {
    j := 0;
    if requests != [] {
      var before, r := requests[..|requests| - 1], requests[|requests| - 1];
      assert requests == before + [r];
      j := LatestIsKept(c, before, path);
      if Keeps(c, Served(c, before), r) && SamePath(r.path, path) {
        LogTellsNow(c, before, r, path);
        j := |before|;
      } else {
        LogTellsStill(c, before, r, path, j);
      }
    }
  }

  lemma HitIsLatest(c: Setup, p: Proxy, r: Request)
    requires 0 < c.capacity && CacheSpec.Timely(c.start, p.log) && IsHit(c, p, r)
    ensures var latest := CacheSpec.Latest(p.log, Key(r.path));
            && latest.Some? && Outcome(c, p, r).sent == Some(latest.value.data)
            && r.env.now - latest.value.stamp < 300
  {
    CacheSpec.HitIsLatestAdd(c.capacity, c.start, p.log, Key(r.path), r.env.now);
  }

  // A client is sent its own server's bytes, or else, less than 300 seconds after it was kept,
  // the last kept answer to a request for the same path, as far as 511 bytes tell paths apart.
  lemma PageOfPath(c: Setup, requests: seq<Request>, r: Request) returns (j: int)
    requires 0 < c.capacity && CacheSpec.Timely(c.start, Served(c, requests).log)
    ensures var p := Served(c, requests);
            var f := Outcome(c, p, r);
            && (f.sent.Some? && !IsHit(c, p, r) ==> f.sent == Some(r.answer) && r.answer != [])
            && (IsHit(c, p, r) ==>
                 && LastKept(c, requests, r.path, j) && f.sent == Some(requests[j].answer)
                 && r.env.now - requests[j].env.later < 300)
  {
    var p := Served(c, requests);
    j := LatestIsKept(c, requests, r.path);
    if IsHit(c, p, r) {
      HitIsLatest(c, p, r);
    }
  }

  // ---------------------------------------------------------------- whose server

  datatype Site = Site(host: string, path: string)

  // The request names one of these sites, or no host at all.
  ghost predicate Names(sites: iset<Site>, r: Request) {
    r.host.Some? ==> Site(r.host.value, r.path) in sites
  }

  // A page from the cache was sent by the server this request asks for.
  ghost predicate RightServer(c: Setup, requests: seq<Request>, r: Request) {
    IsHit(c, Served(c, requests), r) ==>
      exists j :: Kept(c, requests, j) && Outcome(c, Served(c, requests), r).sent == Some(requests[j].answer)
               && requests[j].host.Some? && HttpParser.HostPort(requests[j].host.value) == HttpParser.HostPort(r.host.value)
  }

  ghost predicate AlwaysRight(sites: iset<Site>) {
    forall c: Setup, requests: seq<Request>, r: Request ::
      && 0 < c.capacity && CacheSpec.Timely(c.start, Served(c, requests).log)
      && (forall i :: 0 <= i < |requests| ==> Names(sites, requests[i])) && Names(sites, r)
      ==> RightServer(c, requests, r)
  }

  ghost predicate OneServerPerPath(sites: iset<Site>) {
    forall a, b :: a in sites && b in sites && SamePath(a.path, b.path) ==>
      HttpParser.HostPort(a.host) == HttpParser.HostPort(b.host)
  }

  // The first request of all, answered with one byte.
  function FirstRequest(a: Site): Request {
    Request(Some(a.host), a.path, [1], Env(0, 0, 3, 3, true, 0, true, 0))
  }

  lemma FirstMisses(c: Setup, a: Site)
    ensures Keeps(c, Served(c, []), FirstRequest(a))
    ensures Outcome(c, Served(c, []), FirstRequest(a)).log
         == [CacheSpec.Get(Key(a.path), 0), CacheSpec.Add(Key(a.path), [1], 0, true)]
  {
    var p := Served(c, []);
    assert CacheSpec.Find(Cached(c, p).lru, Key(a.path)) == 0;
    RequestHandling.MissSucceeds(c.slots, HttpParser.HostPort(a.host), Key(a.path), [1], FirstRequest(a).env);
  }

  lemma GetThenAdd(capacity: nat, key: CacheHash.Url)
    requires 0 < capacity
    ensures CacheSpec.Lookup(CacheSpec.Run(capacity, 0, [CacheSpec.Get(key, 0), CacheSpec.Add(key, [1], 0, true)]), key, 0).Some?
  {
    var get, add := CacheSpec.Get(key, 0), CacheSpec.Add(key, [1], 0, true);
    CacheSpec.RunSnoc(capacity, 0, [], get);
    assert [] + [get] == [get];
    var s := CacheSpec.Run(capacity, 0, [get]);
    assert CacheSpec.Find([], key) == 0 && s == CacheSpec.State([], 0, 0, capacity);
    CacheSpec.RunSnoc(capacity, 0, [get], add);
    assert [get] + [add] == [get, add];
    var e := CacheSpec.Entry(key, [1], 0, 0);
    assert CacheSpec.Step(s, add).lru == [e];
    assert CacheSpec.Find([e], key) == 0;
  }

  lemma FirstIsKept(c: Setup, a: Site)
    requires 0 < c.capacity && c.start == 0
    ensures var requests := [FirstRequest(a)];
            && Kept(c, requests, 0) && CacheSpec.Timely(0, Served(c, requests).log)
            && CacheSpec.Lookup(Cached(c, Served(c, requests)), Key(a.path), 0).Some?
  {
    var requests := [FirstRequest(a)];
    FirstMisses(c, a);
    GetThenAdd(c.capacity, Key(a.path));
    assert requests[..0] == [];
    KeptMeans(c, requests, 0);
  }

  lemma HitIsRight(c: Setup, requests: seq<Request>, r: Request, sites: iset<Site>)
    requires 0 < c.capacity && CacheSpec.Timely(c.start, Served(c, requests).log)
    requires (forall i :: 0 <= i < |requests| ==> Names(sites, requests[i])) && Names(sites, r)
    requires OneServerPerPath(sites)
    ensures RightServer(c, requests, r)
  {
    var j := PageOfPath(c, requests, r);
    if IsHit(c, Served(c, requests), r) {
      KeptMeans(c, requests, j);
      assert Kept(c, requests, j) && Names(sites, requests[j]);
    }
  }

  // The key leaves out the host: pages always come from the server asked for if and only if no
  // two sites that share a path, as far as 511 bytes tell, are on different servers.
  lemma PagesKeepToServers(sites: iset<Site>)
    ensures AlwaysRight(sites) <==> OneServerPerPath(sites)
  {
    if OneServerPerPath(sites) {
      forall c: Setup, requests: seq<Request>, r: Request |
          && 0 < c.capacity && CacheSpec.Timely(c.start, Served(c, requests).log)
          && (forall i :: 0 <= i < |requests| ==> Names(sites, requests[i])) && Names(sites, r)
        ensures RightServer(c, requests, r)
      {
        HitIsRight(c, requests, r, sites);
      }
    } else {
      var a, b :| a in sites && b in sites && SamePath(a.path, b.path)
                  && HttpParser.HostPort(a.host) != HttpParser.HostPort(b.host);
      OtherServersPage(sites, a, b);
    }
  }

  // Two sites that share a path: the second client is sent the page of the first site.
  lemma OtherServersPage(sites: iset<Site>, a: Site, b: Site)
    requires a in sites && b in sites && SamePath(a.path, b.path)
    requires HttpParser.HostPort(a.host) != HttpParser.HostPort(b.host)
    ensures !AlwaysRight(sites)
  {
    var c := Setup(1024, 0, seq(PoolSpec.MAX_POOL_SIZE, _ => PoolSpec.EMPTY));
    var requests, r := [FirstRequest(a)], FirstRequest(b);
    FirstIsKept(c, a);
    KeysMeet(a.path, b.path);
    assert IsHit(c, Served(c, requests), r);
    assert Names(sites, requests[0]) && Names(sites, r);
    assert !RightServer(c, requests, r);
  }
}
