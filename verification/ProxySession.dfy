/**
 * One worker's session: requests through forward_request_to_server
 * (src/components/proxy_server.c) one after the other, on one cache and one connection pool.
 */
module ProxySession {
  import opened ProxyServer
  import opened Wrappers
  import C = Cache
  import CacheSpec
  import P = ConnectionPool
  import Pages
  import PoolSpec
  import Receive

  lemma LogInOrder(p: seq<CacheSpec.Op>, log: seq<CacheSpec.Op>, now: int, later: int)
    requires now <= later && forall i :: 0 <= i < |p| ==> p[i].now <= now
    requires forall i :: 0 <= i < |log| ==> log[i].now == now || log[i].now == later
    ensures forall i :: 0 <= i < |p + log| ==> (p + log)[i].now <= later
  {
  }

  lemma ForwardingTimes(s: CacheSpec.State, slots: seq<PoolSpec.Slot>, r: Pages.Request, answer: seq<int>)
    ensures var log := Forwarding(s, slots, r.host, r.path, answer, r.env).log;
            forall i :: 0 <= i < |log| ==> log[i].now == r.env.now || log[i].now == r.env.later
  {
  }

  // What each client is told: the outcome of its request after those before it.
  function Telling(c: Pages.Setup, requests: seq<Pages.Request>): (told: seq<seq<Event>>)
    ensures |told| == |requests|
  {
    if requests == [] then []
    else
      var before, r := requests[..|requests| - 1], requests[|requests| - 1];
      Telling(c, before) + [Told(Pages.Outcome(c, Pages.Served(c, before), r).sent)]
  }

  lemma TellingOneMore(c: Pages.Setup, before: seq<Pages.Request>, r: Pages.Request)
    ensures Telling(c, before + [r]) == Telling(c, before) + [Told(Pages.Outcome(c, Pages.Served(c, before), r).sent)]
  {
    assert (before + [r])[..|before|] == before;
  }

  lemma {:induction false} TellingMeans(c: Pages.Setup, requests: seq<Pages.Request>, i: nat)
    requires i < |requests|
    ensures Telling(c, requests)[i] == Told(Pages.Outcome(c, Pages.Served(c, requests[..i]), requests[i]).sent)
  {
    var before, r := requests[..|requests| - 1], requests[|requests| - 1];
    var told := Telling(c, before);
    assert Telling(c, requests) == told + [Told(Pages.Outcome(c, Pages.Served(c, before), r).sent)];
    if i < |before| {
      TellingMeans(c, before, i);
      assert before[..i] == requests[..i] && before[i] == requests[i];
      assert Telling(c, requests)[i] == told[i];
    } else {
      assert requests[..i] == before;
    }
  }

  // One request, with a client and a server connection of its own.
  method ServeOne(r: Pages.Request, arrivals: seq<string>, cache: C.Cache, pool: P.ConnectionPool, buffer: array<char>)
    returns (told: seq<Event>)
    requires cache.Valid() && pool.Valid() && Apart(cache, pool, buffer)
    requires NotBefore(cache, r.env.now) && r.env.now <= r.env.later
    requires r.answer == Codes(Receive.Gather(arrivals, ""))
    modifies cache, cache.table, C.Members(cache.lru), pool, pool.connections, buffer
    ensures cache.Valid() && pool.Valid() && NotBefore(cache, r.env.later)
    ensures fresh(C.Members(cache.lru) - old(C.Members(cache.lru)))
    ensures var f := Forwarding(old(cache.View()), old(pool.connections[..]), r.host, r.path, r.answer, r.env);
            && cache.history == old(cache.history) + f.log
            && pool.connections[..] == f.slots && told == Told(f.sent)
  {
    ghost var log := Forwarding(cache.View(), pool.connections[..], r.host, r.path, r.answer, r.env).log;
    ForwardingTimes(cache.View(), pool.connections[..], r, r.answer);
    LogInOrder(cache.history, log, r.env.now, r.env.later);
    var client := new Client();
    var up := new Receive.Upstream(arrivals);
    assert cache.Valid() && pool.Valid();
    var _, _ := Forward(r.host, r.path, client, cache, pool, up, buffer, r.env);
    told := client.events;
  }

  // The objects stand where a run of requests has left them.
  ghost predicate Stands(c: Pages.Setup, requests: seq<Pages.Request>, cache: C.Cache, pool: P.ConnectionPool)
    reads cache, pool, pool.connections
  {
    && c.capacity == cache.maxSize && c.start == cache.start
    && Pages.Served(c, requests) == Pages.Proxy(cache.history, pool.connections[..])
  }

  // One request more.
  method ServeNext(r: Pages.Request, arrivals: seq<string>, cache: C.Cache, pool: P.ConnectionPool,
                   buffer: array<char>, ghost c: Pages.Setup, ghost before: seq<Pages.Request>)
    returns (told: seq<Event>)
    requires cache.Valid() && pool.Valid() && Apart(cache, pool, buffer)
    requires NotBefore(cache, r.env.now) && r.env.now <= r.env.later
    requires r.answer == Codes(Receive.Gather(arrivals, ""))
    modifies cache, cache.table, C.Members(cache.lru), pool, pool.connections, buffer
    ensures cache.Valid() && pool.Valid() && NotBefore(cache, r.env.later)
    ensures fresh(C.Members(cache.lru) - old(C.Members(cache.lru)))
    ensures old(Stands(c, before, cache, pool)) ==>
              Stands(c, before + [r], cache, pool) && Telling(c, before + [r]) == Telling(c, before) + [told]
  {
    Pages.OneMore(c, before, r);
    TellingOneMore(c, before, r);
    told := ServeOne(r, arrivals, cache, pool, buffer);
  }

  // Before the first request: a fresh cache and a fresh pool stand where no request leaves them.
  method Start(ghost start: int) returns (cache: C.Cache, pool: P.ConnectionPool, buffer: array<char>)
    ensures cache.Valid() && pool.Valid() && Apart(cache, pool, buffer)
    ensures fresh(cache) && fresh(cache.table) && C.Members(cache.lru) == {}
    ensures fresh(pool) && fresh(pool.connections) && fresh(buffer)
    ensures forall now :: start <= now ==> NotBefore(cache, now)
    ensures Stands(Pages.Setup(1024, start, seq(20, _ => PoolSpec.EMPTY)), [], cache, pool)
  {
    cache := C.Cache.Create(start);
    assert C.Entries(cache.lru) == [] && |cache.lru| == 0;
    pool := new P.ConnectionPool();
    buffer := new char[Receive.MAX_RESPONSE_SIZE];
    assert pool.connections[..] == seq(20, _ => PoolSpec.EMPTY);
  }
}
