/**
 * What becomes of the server socket of a request that misses the cache
 * (src/components/proxy_server.c:268-381): kept by the pool, closed, or lost.
 */
module ProxySockets {
  import opened PoolSpec
  import opened ProxyServer
  import opened Wrappers
  import CacheHash
  import HttpParser
  import Leases
  import Reuse

  ghost predicate HeldBy(slots: seq<Slot>, fd: int) {
    exists i :: 0 <= i < |slots| && slots[i].fd == fd
  }

  ghost predicate HeldInUse(slots: seq<Slot>, fd: int) {
    exists i :: 0 <= i < |slots| && slots[i].fd == fd && slots[i].inUse
  }

  function Found(slots: seq<Slot>, to: HttpParser.Endpoint, env: Env): Effect {
    Lookup(slots, to.host, to.port, env.poolNow)
  }

  // What the system gives: the socket of an idle slot is open, so a socket made after the scan
  // has another number.
  ghost predicate NewNumber(slots: seq<Slot>, to: HttpParser.Endpoint, env: Env) {
    var found := Found(slots, to, env);
    found.fd <= 0 && ServerSocket(found, env) >= 0 ==>
      forall i :: 0 <= i < |slots| && found.slots[i].fd == ServerSocket(found, env) ==> found.slots[i].inUse
  }

  // The pool has the socket, idle, or has closed it after the scan: one of the two.
  ghost predicate Settled(f: Forwarded, found: Effect, fd: int) {
    && f.dropped == []
    && !HeldInUse(f.slots, fd)
    && f.poolClosed == found.closed + if HeldBy(f.slots, fd) then [] else [fd]
  }

  // The socket of an answered miss settles exactly when it is not socket 0, which the request
  // takes for a socket and connection_pool_return ignores.
  lemma AnsweredSocketSettles(slots: seq<Slot>, to: HttpParser.Endpoint, key: CacheHash.Url,
                              answer: seq<int>, env: Env)
    requires SlotsDistinct(slots) && NewNumber(slots, to, env)
    requires ForwardMiss(slots, to, key, answer, env).code == 0
    ensures var found := Found(slots, to, env);
            var fd := ServerSocket(found, env);
            fd >= 0 && (Settled(ForwardMiss(slots, to, key, answer, env), found, fd) <==> fd > 0)
  {
    var found := Found(slots, to, env);
    var fd := ServerSocket(found, env);
    var back := GiveBack(found.slots, fd, to.host, to.port, true, env.returnNow);
    LookupKeepsDistinct(slots, to.host, to.port, env.poolNow);
    var k, v := First(found.slots, HasFd(fd)), First(found.slots, IsVacant);
    if fd > 0 {
      if k < |slots| {
        assert back.slots[k].fd == fd;
      } else if v < |slots| {
        assert back.slots[v].fd == fd;
      }
    } else {
      assert found.closed + [fd] != found.closed;
    }
  }

  // Socket 0 for the first request of all: neither the pool nor anyone else closes it.
  lemma SocketZeroIsLost(to: HttpParser.Endpoint, key: CacheHash.Url, answer: seq<int>, env: Env)
    requires env.connected == 0 && env.sendOk && answer != []
    ensures var f := ForwardMiss(seq(MAX_POOL_SIZE, _ => EMPTY), to, key, answer, env);
            f.code == 0 && f.dropped == [] && f.poolClosed == [] && !HeldBy(f.slots, 0)
  {
    var slots := seq(MAX_POOL_SIZE, _ => EMPTY);
    FirstIs(slots, FreshMatch(to.host, to.port, env.poolNow), MAX_POOL_SIZE);
    FdsMembersNone(slots, StaleMatch(to.host, to.port, env.poolNow));
    assert slots[..MAX_POOL_SIZE] == slots;
  }

  lemma FdsMembersNone(slots: seq<Slot>, p: Slot -> bool)
    requires forall i :: 0 <= i < |slots| ==> !p(slots[i])
    ensures Fds(slots, p) == []
  {
    if Fds(slots, p) != [] {
      FdsMembers(slots, p, Fds(slots, p)[0]);
    }
  }

  // A failing request closes its server socket without telling the pool.  Exactly when the
  // socket had come out of a slot, or its number stands in a slot in use since an earlier
  // failure, a slot keeps the closed socket, in use.
  lemma DroppedSocketStays(slots: seq<Slot>, to: HttpParser.Endpoint, key: CacheHash.Url,
                           answer: seq<int>, env: Env)
    requires NewNumber(slots, to, env) && ForwardMiss(slots, to, key, answer, env).dropped != []
    ensures var f, found := ForwardMiss(slots, to, key, answer, env), Found(slots, to, env);
            var fd := ServerSocket(found, env);
            && f.dropped == [fd]
            && (HeldBy(f.slots, fd) <==> found.fd > 0 || HeldInUse(slots, fd))
            && (HeldBy(f.slots, fd) ==> HeldInUse(f.slots, fd))
  {
    var found := Found(slots, to, env);
    var fd := ServerSocket(found, env);
    var k := First(slots, FreshMatch(to.host, to.port, env.poolNow));
    if found.fd > 0 {
      assert found.slots[k].fd == fd && found.slots[k].inUse;
    } else {
      forall i | 0 <= i < |slots|
        ensures found.slots[i] == slots[i] || (found.slots[i] == EMPTY && !slots[i].inUse)
      {
      }
    }
  }

  function OneIdle(to: HttpParser.Endpoint, now: int): seq<Slot> {
    [Slot(3, to.host, to.port, now, false)] + seq(MAX_POOL_SIZE - 1, _ => EMPTY)
  }

  // One idle socket for the host, and a send that fails: the slot keeps the closed socket.
  lemma DroppedSocketInSlot(to: HttpParser.Endpoint, key: CacheHash.Url, answer: seq<int>, env: Env)
    requires !env.sendOk
    ensures var f := ForwardMiss(OneIdle(to, env.poolNow), to, key, answer, env);
            && f.code == -1 && f.dropped == [3]
            && f.slots == OneIdle(to, env.poolNow)[0 := Slot(3, to.host, to.port, env.poolNow, true)]
  {
    var slots := OneIdle(to, env.poolNow);
    FirstIs(slots, FreshMatch(to.host, to.port, env.poolNow), 0);
    ScanStart(slots, StaleMatch(to.host, to.port, env.poolNow));
  }

  // And then a request to any host, for which the pool has nothing, gets the same number.  If
  // it fails too, the slot keeps a socket that never came from it; if it is answered, the next
  // request to the first host is handed the socket connected to the second.
  lemma DroppedNumberReturns(a: HttpParser.Endpoint, b: HttpParser.Endpoint, key: CacheHash.Url,
                             answer: seq<int>, env: Env, later: Env)
    requires !env.sendOk && later.connected == 3
    ensures var f := ForwardMiss(OneIdle(a, env.poolNow), a, key, answer, env);
            var g := ForwardMiss(f.slots, b, key, answer, later);
            && Found(f.slots, b, later).fd == -1
            && (g.code != 0 ==> g.dropped == [3] && HeldInUse(g.slots, 3))
            && (g.code == 0 ==> Lookup(g.slots, a.host, a.port, later.returnNow).fd == 3)
  {
    DroppedSocketInSlot(a, key, answer, env);
    var f := ForwardMiss(OneIdle(a, env.poolNow), a, key, answer, env);
    var g := ForwardMiss(f.slots, b, key, answer, later);
    var found := Found(f.slots, b, later);
    FirstIs(f.slots, FreshMatch(b.host, b.port, later.poolNow), MAX_POOL_SIZE);
    assert found.slots == f.slots;
    FirstIs(f.slots, HasFd(3), 0);
    if g.code == 0 {
      FirstIs(g.slots, FreshMatch(a.host, a.port, later.returnNow), 0);
    } else {
      assert g.slots[0].fd == 3 && g.slots[0].inUse;
    }
  }

  // ---------------------------------------------------------------- a request as a lease run

  function LastStep(fd: int, answer: seq<int>, env: Env): Leases.Action {
    if !env.sendOk || answer == [] then Leases.Abandon(fd) else Leases.GiveUp(fd, env.returnNow)
  }

  function MissRun(slots: seq<Slot>, to: HttpParser.Endpoint, answer: seq<int>, env: Env): seq<Leases.Action> {
    var found := Found(slots, to, env);
    var find, fd := Leases.Find(to.host, to.port, env.poolNow), ServerSocket(found, env);
    if found.fd > 0 then [find, LastStep(fd, answer, env)]
    else if fd < 0 then [find]
    else [find] + [Leases.Connect(to.host, to.port, fd), LastStep(fd, answer, env)]
  }

  lemma LastStepDoes(t: Leases.State, fd: int, to: HttpParser.Endpoint, answer: seq<int>, env: Env)
    requires fd in t.leases && t.leases[fd] == Leases.Peer(to.host, to.port)
    ensures var a, back := LastStep(fd, answer, env), GiveBack(t.slots, fd, to.host, to.port, true, env.returnNow);
            && Leases.Enabled(t, a)
            && Leases.Next(t, a).slots == (if a.Abandon? then t.slots else back.slots)
            && Leases.Next(t, a).closed == t.closed + multiset(if a.Abandon? then [fd] else back.closed)
            && Leases.Next(t, a).leases == t.leases - {fd}
  {
  }

  lemma ThreeClosings(closed: multiset<int>, a: seq<int>, b: seq<int>)
    ensures closed + multiset(a) + multiset(b) == closed + multiset(a + b)
  {
  }

  // The run does to the slots and the sockets what the request does, and leaves no lease.
  ghost predicate RunsAs(s: Leases.State, run: seq<Leases.Action>, f: Forwarded) {
    && Leases.CanRun(s, run)
    && Leases.After(s, run).slots == f.slots
    && Leases.After(s, run).leases == s.leases
    && Leases.After(s, run).closed == s.closed + multiset(f.poolClosed + f.dropped)
  }

  // From a state in which the socket is leased to the request alone.
  lemma LastStepRuns(s: Leases.State, t: Leases.State, fd: int, closed: seq<int>, to: HttpParser.Endpoint,
                     answer: seq<int>, env: Env, f: Forwarded)
    requires fd !in s.leases && t.leases == s.leases[fd := Leases.Peer(to.host, to.port)]
    requires t.closed == s.closed + multiset(closed)
    requires var back := GiveBack(t.slots, fd, to.host, to.port, true, env.returnNow);
             if LastStep(fd, answer, env).Abandon?
             then f.slots == t.slots && f.poolClosed == closed && f.dropped == [fd]
             else f.slots == back.slots && f.poolClosed == closed + back.closed && f.dropped == []
    ensures var last := LastStep(fd, answer, env);
            && Leases.Enabled(t, last)
            && Leases.Next(t, last).slots == f.slots
            && Leases.Next(t, last).leases == s.leases
            && Leases.Next(t, last).closed == s.closed + multiset(f.poolClosed + f.dropped)
  {
    var last := LastStep(fd, answer, env);
    var back := GiveBack(t.slots, fd, to.host, to.port, true, env.returnNow);
    LastStepDoes(t, fd, to, answer, env);
    ThreeClosings(s.closed, closed, if last.Abandon? then [fd] else back.closed);
    assert f.poolClosed + f.dropped == closed + if last.Abandon? then [fd] else back.closed;
  }

  // A request that misses the cache is a run of lease steps: what is proved of the runs of all
  // callers holds of requests.  It leaves no lease behind.
  lemma MissIsLeaseRun(s: Leases.State, to: HttpParser.Endpoint, key: CacheHash.Url, answer: seq<int>, env: Env)
    requires Leases.Inv(s)
    requires var found := Found(s.slots, to, env);
             var fd := ServerSocket(found, env);
             fd != 0 && (found.fd <= 0 ==> fd !in s.peers || fd in found.closed)  // a new number
    ensures RunsAs(s, MissRun(s.slots, to, answer, env), ForwardMiss(s.slots, to, key, answer, env))
  {
    var found := Found(s.slots, to, env);
    var fd := ServerSocket(found, env);
    if found.fd > 0 {
      ReusingRuns(s, to, key, answer, env);
    } else if fd < 0 {
      var find := Leases.Find(to.host, to.port, env.poolNow);
      Reuse.AfterOne(s, find, []);
      assert found.closed + [] == found.closed && [find] + [] == [find];
    } else {
      ConnectingRuns(s, to, key, answer, env);
    }
  }

  lemma ReusingRuns(s: Leases.State, to: HttpParser.Endpoint, key: CacheHash.Url, answer: seq<int>, env: Env)
    requires Leases.Inv(s) && Found(s.slots, to, env).fd > 0
    ensures RunsAs(s, MissRun(s.slots, to, answer, env), ForwardMiss(s.slots, to, key, answer, env))
  {
    var found := Found(s.slots, to, env);
    var find, last := Leases.Find(to.host, to.port, env.poolNow), LastStep(found.fd, answer, env);
    var k := First(s.slots, FreshMatch(to.host, to.port, env.poolNow));
    Reuse.FreshMatchIsSafe(s, k, to.host, to.port, env.poolNow);
    LastStepRuns(s, Leases.Next(s, find), found.fd, found.closed, to, answer, env,
                 ForwardMiss(s.slots, to, key, answer, env));
    Reuse.AfterTwo(s, find, last);
  }

  lemma ConnectingRuns(s: Leases.State, to: HttpParser.Endpoint, key: CacheHash.Url, answer: seq<int>, env: Env)
    requires Leases.Inv(s) && Found(s.slots, to, env).fd <= 0 && ServerSocket(Found(s.slots, to, env), env) > 0
    requires var found := Found(s.slots, to, env);
             ServerSocket(found, env) !in s.peers || ServerSocket(found, env) in found.closed
    ensures RunsAs(s, MissRun(s.slots, to, answer, env), ForwardMiss(s.slots, to, key, answer, env))
  {
    var found := Found(s.slots, to, env);
    var fd := ServerSocket(found, env);
    var find, last := Leases.Find(to.host, to.port, env.poolNow), LastStep(fd, answer, env);
    var connect := Leases.Connect(to.host, to.port, fd);
    var t := Leases.Next(s, find);
    Leases.FindKeeps(s, to.host, to.port, env.poolNow);
    assert Leases.LeaseOk(t, fd);
    LastStepRuns(s, Leases.Next(t, connect), fd, found.closed, to, answer, env,
                 ForwardMiss(s.slots, to, key, answer, env));
    Reuse.AfterTwo(t, connect, last);
    Reuse.AfterOne(s, find, [connect, last]);
  }
}
