/**
 * Where a reused socket leads: when the pool hands out a socket of an idle slot, is that
 * socket connected to the host and port the slot names?  It is as long as no caller closes a
 * socket that stands in a slot; once one does, a run can follow that misleads a caller.
 */
module Reuse {
  import opened Leases
  import opened PoolSpec

  // ---------------------------------------------------------------- slots that tell the truth

  // A live slot holds an open socket and names its peer.
  predicate Truthful(s: State, slot: Slot) {
    IsLive(slot) ==>
      && slot.fd in s.peers
      && slot.host == Stored(s.peers[slot.fd].host)
      && slot.port == s.peers[slot.fd].port
  }

  // A caller holds a socket for the peer it is connected to, as far as a slot can tell.
  predicate LeaseTrue(s: State, fd: int) {
    fd in s.leases && fd in s.peers ==>
      && Stored(s.leases[fd].host) == Stored(s.peers[fd].host)
      && s.leases[fd].port == s.peers[fd].port
  }

  ghost predicate Matched(s: State) {
    && (forall i :: 0 <= i < |s.slots| ==> Truthful(s, s.slots[i]))
    && (forall fd :: LeaseTrue(s, fd))
  }

  // No socket that stands in a slot is abandoned.
  ghost predicate Tidy(s: State, run: seq<Action>)
    requires CanRun(s, run)
    decreases |run|
  {
    run == [] ||
    ((run[0].Abandon? ==> !InSlot(s.slots, run[0].fd)) && Tidy(Next(s, run[0]), run[1..]))
  }

  lemma StoredTwice(host: string)
    ensures Stored(Stored(host)) == Stored(host)
  {
  }

  // Emptying slots and closing sockets, as far as the slots that remain are concerned.
  lemma ScanMatched(s: State, t: State)
    requires Inv(s) && Matched(s) && Inv(t)
    requires t.leases == s.leases && |t.slots| == |s.slots|
    requires forall fd :: fd in t.peers ==> fd in s.peers && t.peers[fd] == s.peers[fd]
    requires forall i :: 0 <= i < |t.slots| && IsLive(t.slots[i]) ==> t.slots[i] == s.slots[i]
    ensures Matched(t)
  {
    forall i | 0 <= i < |t.slots|
      ensures Truthful(t, t.slots[i])
    {
      assert Truthful(s, s.slots[i]) && SlotOk(s, s.slots[i]) && SlotOk(t, t.slots[i]);
      assert LeaseOk(t, t.slots[i].fd);
    }
    forall fd
      ensures LeaseTrue(t, fd)
    {
      assert LeaseTrue(s, fd);
    }
  }

  lemma FindMatched(s: State, host: string, port: int, now: int)
    requires Inv(s) && Matched(s)
    ensures Matched(Next(s, Find(host, port, now)))
  {
    var k, p := First(s.slots, FreshMatch(host, port, now)), StaleMatch(host, port, now);
    var t := CloseAll(s.(slots := Scanned(s.slots, k, p)), ScanClosed(s.slots, k, p));
    ScanKeeps(s, k, p);
    ScanMatched(s, t);
    if k < |s.slots| {
      assert t.slots[k] == s.slots[k];
      assert Truthful(t, t.slots[k]);
      LeaseMatched(t, k, host, port, now);
    }
  }

  lemma LeaseMatched(s: State, k: nat, host: string, port: int, now: int)
    requires Matched(s) && k < |s.slots| && IdleMatch(s.slots[k], host, port)
    ensures Matched(s.(slots := s.slots[k := s.slots[k].(inUse := true, lastUsed := now)],
                       leases := s.leases[s.slots[k].fd := Peer(host, port)]))
  {
    var fd := s.slots[k].fd;
    var t := s.(slots := s.slots[k := s.slots[k].(inUse := true, lastUsed := now)],
                leases := s.leases[fd := Peer(host, port)]);
    assert Truthful(s, s.slots[k]);
    StoredTwice(s.peers[fd].host);
    forall i | 0 <= i < |t.slots|
      ensures Truthful(t, t.slots[i])
    {
      assert Truthful(s, s.slots[i]);
    }
    forall x
      ensures LeaseTrue(t, x)
    {
      assert LeaseTrue(s, x);
    }
  }

  lemma ConnectMatched(s: State, host: string, port: int, fd: int)
    requires Matched(s) && Enabled(s, Connect(host, port, fd))
    ensures Matched(Next(s, Connect(host, port, fd)))
  {
    var t := Next(s, Connect(host, port, fd));
    forall i | 0 <= i < |t.slots|
      ensures Truthful(t, t.slots[i])
    {
      assert Truthful(s, s.slots[i]);
    }
    forall x
      ensures LeaseTrue(t, x)
    {
      assert LeaseTrue(s, x);
    }
  }

  // Writing a slot that tells the truth, and dropping a lease.
  lemma StoreMatched(s: State, fd: int, k: nat, slot: Slot, now: int)
    requires Matched(s) && k < |s.slots| && Truthful(s, slot)
    ensures Matched(s.(slots := s.slots[k := slot], leases := s.leases - {fd}, idleSince := s.idleSince[fd := now]))
  {
    var t := s.(slots := s.slots[k := slot], leases := s.leases - {fd}, idleSince := s.idleSince[fd := now]);
    forall i | 0 <= i < |t.slots|
      ensures Truthful(t, t.slots[i])
    {
      assert Truthful(s, s.slots[i]);
    }
    forall x
      ensures LeaseTrue(t, x)
    {
      assert LeaseTrue(s, x);
    }
  }

  // Closing a socket that stands in no slot.
  lemma CloseMatched(s: State, fd: int, idleSince: map<int, int>)
    requires Matched(s) && !InSlot(s.slots, fd)
    ensures Matched(CloseAll(s.(leases := s.leases - {fd}, idleSince := idleSince), [fd]))
  {
    var t := CloseAll(s.(leases := s.leases - {fd}, idleSince := idleSince), [fd]);
    forall i | 0 <= i < |t.slots|
      ensures Truthful(t, t.slots[i])
    {
      assert Truthful(s, s.slots[i]);
    }
    forall x
      ensures LeaseTrue(t, x)
    {
      assert LeaseTrue(s, x);
    }
  }

  lemma GiveUpMatched(s: State, fd: int, now: int)
    requires Inv(s) && Matched(s) && fd in s.leases
    ensures Matched(Next(s, GiveUp(fd, now)))
  {
    assert LeaseOk(s, fd) && LeaseTrue(s, fd);
    var host, port := s.leases[fd].host, s.leases[fd].port;
    var k, v := First(s.slots, HasFd(fd)), First(s.slots, IsVacant);
    if k < |s.slots| {
      var slot := s.slots[k].(inUse := false, lastUsed := now);
      assert Truthful(s, s.slots[k]);
      StoreMatched(s, fd, k, slot, now);
      ClosingNothing(Next(s, GiveUp(fd, now)), s, s.slots[k := slot], fd, now);
    } else if v < |s.slots| {
      var slot := Slot(fd, Stored(host), port, now, false);
      StoreMatched(s, fd, v, slot, now);
      ClosingNothing(Next(s, GiveUp(fd, now)), s, s.slots[v := slot], fd, now);
    } else {
      assert !InSlot(s.slots, fd);
      CloseMatched(s, fd, s.idleSince[fd := now]);
    }
  }

  lemma MatchedStep(s: State, a: Action)
    requires Inv(s) && Matched(s) && Enabled(s, a)
    requires a.Abandon? ==> !InSlot(s.slots, a.fd)
    ensures Matched(Next(s, a))
  {
    match a
    case Find(host, port, now) => FindMatched(s, host, port, now);
    case Connect(host, port, fd) => ConnectMatched(s, host, port, fd);
    case GiveUp(fd, now) => GiveUpMatched(s, fd, now);
    case Abandon(fd) => CloseMatched(s, fd, s.idleSince);
    case CleanUp(now) =>
      InvStep(s, a);
      ScanMatched(s, Next(s, a));
  }

  lemma {:induction false} RunMatched(s: State, run: seq<Action>)
    requires Inv(s) && Matched(s) && CanRun(s, run) && Tidy(s, run)
    ensures Matched(After(s, run))
    decreases |run|
  {
    if run != [] {
      InvStep(s, run[0]);
      MatchedStep(s, run[0]);
      RunMatched(Next(s, run[0]), run[1..]);
    }
  }

  // Along tidy runs from the start every slot names the peer of its socket.
  lemma TidyIsMatched(run: seq<Action>)
    requires CanRun(Init(), run) && Tidy(Init(), run)
    ensures Inv(Reached(run)) && Matched(Reached(run))
  {
    InitInv();
    RunInv(Init(), run);
    RunMatched(Init(), run);
  }

  // ---------------------------------------------------------------- what callers rely on

  // Unleased, open, and given back less than the timeout ago.
  predicate Available(s: State, fd: int, now: int) {
    && fd !in s.leases && fd in s.peers
    && fd in s.idleSince && now - s.idleSince[fd] < 30
  }

  predicate SafeReuse(s: State, fd: int, host: string, port: int, now: int) {
    Available(s, fd, now) && s.peers[fd].port == port && Stored(s.peers[fd].host) == host
  }

  lemma FreshMatchIsSafe(s: State, k: nat, host: string, port: int, now: int)
    requires Inv(s) && k < |s.slots| && FreshMatch(host, port, now)(s.slots[k])
    ensures Available(s, s.slots[k].fd, now)
    ensures Matched(s) ==> SafeReuse(s, s.slots[k].fd, host, port, now)
  {
    assert SlotOk(s, s.slots[k]);
    assert Matched(s) ==> Truthful(s, s.slots[k]);
  }

  // In every run a reused socket is leased to nobody, is open and was given back less than the
  // timeout ago; in a tidy run it was connected to this port and to a host with this name as
  // far as a slot can store it.
  lemma ReuseIsSafe(run: seq<Action>, host: string, port: int, now: int)
    requires CanRun(Init(), run) && Lookup(Reached(run).slots, host, port, now).fd > 0
    ensures var s, fd := Reached(run), Lookup(Reached(run).slots, host, port, now).fd;
            && Available(s, fd, now)
            && (Tidy(Init(), run) ==> SafeReuse(s, fd, host, port, now))
  {
    InitInv();
    RunInv(Init(), run);
    if Tidy(Init(), run) {
      RunMatched(Init(), run);
    }
    var s := Reached(run);
    FreshMatchIsSafe(s, First(s.slots, FreshMatch(host, port, now)), host, port, now);
  }

  lemma SafeReuseIsScanned(s: State, fd: int, host: string, port: int, now: int)
    requires Inv(s) && Matched(s) && SafeReuse(s, fd, host, port, now)
    ensures Lookup(s.slots, host, port, now).fd > 0
  {
    assert Accounted(s, fd);
    var i :| 0 <= i < |s.slots| && s.slots[i].fd == fd;
    assert SlotOk(s, s.slots[i]) && Truthful(s, s.slots[i]);
    assert FreshMatch(host, port, now)(s.slots[i]);
  }

  // And none is passed over: when the scan finds nothing, no open socket is idle, fresh and
  // connected to this port and, as far as a slot can store it, this host.
  lemma NoReuseMissed(run: seq<Action>, host: string, port: int, now: int, fd: int)
    requires CanRun(Init(), run) && Tidy(Init(), run) && Lookup(Reached(run).slots, host, port, now).fd <= 0
    ensures !SafeReuse(Reached(run), fd, host, port, now)
  {
    TidyIsMatched(run);
    if SafeReuse(Reached(run), fd, host, port, now) {
      SafeReuseIsScanned(Reached(run), fd, host, port, now);
      assert false;
    }
  }

  // In a tidy run no slot is dead: open means leased or in a slot, and in use means leased.
  lemma TidyConserves(run: seq<Action>, fd: int)
    requires CanRun(Init(), run) && Tidy(Init(), run)
    ensures var s := Reached(run);
            && NoneDead(s)
            && (fd in s.peers <==> fd in s.leases || (fd > 0 && InSlot(s.slots, fd)))
            && (forall i :: 0 <= i < |s.slots| && s.slots[i].fd == fd > 0 ==> (s.slots[i].inUse <==> fd in s.leases))
  {
    TidyIsMatched(run);
    var s := Reached(run);
    forall i | 0 <= i < |s.slots|
      ensures !Dead(s, s.slots[i])
    {
      assert Truthful(s, s.slots[i]);
    }
    SocketsConserved(run, fd);
    assert Accounted(s, fd);
    if fd > 0 && InSlot(s.slots, fd) {
      var i :| 0 <= i < |s.slots| && s.slots[i].fd == fd;
      assert !Dead(s, s.slots[i]);
    }
  }

  // ---------------------------------------------------------------- exactly the tidy runs

  ghost predicate ReuseSafe(s: State) {
    forall host, port, now :: Lookup(s.slots, host, port, now).fd > 0 ==>
      SafeReuse(s, Lookup(s.slots, host, port, now).fd, host, port, now)
  }

  ghost predicate NoAbandon(more: seq<Action>) {
    forall i :: 0 <= i < |more| ==> !more[i].Abandon?
  }

  // Wherever the run stands, reuse is safe then and after any steps of callers that give
  // every socket back from there on.
  ghost predicate AlwaysSafe(s: State, run: seq<Action>)
    requires CanRun(s, run)
    decreases |run|
  {
    && (forall more :: CanRun(s, more) && NoAbandon(more) ==> ReuseSafe(After(s, more)))
    && (run == [] || AlwaysSafe(Next(s, run[0]), run[1..]))
  }

  lemma {:induction false} NoAbandonIsTidy(s: State, more: seq<Action>)
    requires CanRun(s, more) && NoAbandon(more)
    ensures Tidy(s, more)
    decreases |more|
  {
    if more != [] {
      assert !more[0].Abandon?;
      assert forall i :: 0 <= i < |more| - 1 ==> more[1..][i] == more[i + 1];
      NoAbandonIsTidy(Next(s, more[0]), more[1..]);
    }
  }

  lemma MatchedIsSafe(s: State)
    requires Inv(s) && Matched(s)
    ensures ReuseSafe(s)
  {
    forall host, port, now | Lookup(s.slots, host, port, now).fd > 0
      ensures SafeReuse(s, Lookup(s.slots, host, port, now).fd, host, port, now)
    {
      FreshMatchIsSafe(s, First(s.slots, FreshMatch(host, port, now)), host, port, now);
    }
  }

  lemma MatchedStaysSafe(s: State, more: seq<Action>)
    requires Inv(s) && Matched(s) && CanRun(s, more) && NoAbandon(more)
    ensures ReuseSafe(After(s, more))
  {
    NoAbandonIsTidy(s, more);
    RunInv(s, more);
    RunMatched(s, more);
    MatchedIsSafe(After(s, more));
  }

  // A time at which everything given back so far has timed out.
  lemma {:induction false} LateEnough(slots: seq<Slot>) returns (now: int)
    ensures forall i :: 0 <= i < |slots| ==> TimedOut(slots[i], now)
  {
    now := 0;
    if slots != [] {
      var n := |slots| - 1;
      now := LateEnough(slots[..n]);
      assert forall i :: 0 <= i < n ==> slots[..n][i] == slots[i] && TimedOut(slots[i], now);
      if now < slots[n].lastUsed + CONNECTION_TIMEOUT {
        now := slots[n].lastUsed + CONNECTION_TIMEOUT;
      }
    }
  }

  // A dead slot comes back to life for whatever peer its number is used for next, under the
  // old name.
  lemma DeadSlotRevives(s: State, k: nat, peer: Peer, now: int)
    requires Inv(s) && k < |s.slots| && Dead(s, s.slots[k])
    ensures var slot, more := s.slots[k], [Connect(peer.host, peer.port, s.slots[k].fd), GiveUp(s.slots[k].fd, now)];
            && CanRun(s, more)
            && After(s, more).slots == s.slots[k := slot.(inUse := false, lastUsed := now)]
            && After(s, more).peers == s.peers[slot.fd := peer]
  {
    var fd := s.slots[k].fd;
    var a, b := Connect(peer.host, peer.port, fd), GiveUp(fd, now);
    var t := Next(s, a);
    FirstIs(s.slots, HasFd(fd), k);
    AfterTwo(s, a, b);
    ClosingNothing(Next(t, b), t, s.slots[k := s.slots[k].(inUse := false, lastUsed := now)], fd, now);
  }

  // So callers are misled: late enough, when no other slot of that name is fresh, the next one
  // that asks for the old name is handed the socket of the new peer.
  lemma DeadSlotMisleads(s: State, k: nat)
    requires Inv(s) && k < |s.slots| && Dead(s, s.slots[k])
    ensures exists more :: CanRun(s, more) && NoAbandon(more) && !ReuseSafe(After(s, more))
  {
    var slot := s.slots[k];
    var now := LateEnough(s.slots);
    var peer := Peer(if slot.host == "" then "x" else "", slot.port);
    var more := [Connect(peer.host, peer.port, slot.fd), GiveUp(slot.fd, now)];
    DeadSlotRevives(s, k, peer, now);
    var t := After(s, more);
    FirstIs(t.slots, FreshMatch(slot.host, slot.port, now), k);
    assert !SafeReuse(t, Lookup(t.slots, slot.host, slot.port, now).fd, slot.host, slot.port, now);
    assert CanRun(s, more) && NoAbandon(more) && !ReuseSafe(After(s, more));
  }

  lemma AbandonedIsDead(s: State, fd: int) returns (k: nat)
    requires Inv(s) && fd in s.leases && InSlot(s.slots, fd)
    ensures k < |s.slots| && Dead(Next(s, Abandon(fd)), Next(s, Abandon(fd)).slots[k])
  {
    k :| 0 <= k < |s.slots| && s.slots[k].fd == fd;
    assert LeaseOk(s, fd);
  }

  lemma {:induction false} TidyExactly(s: State, run: seq<Action>)
    requires Inv(s) && Matched(s) && CanRun(s, run)
    ensures Tidy(s, run) <==> AlwaysSafe(s, run)
    decreases |run|
  {
    forall more | CanRun(s, more) && NoAbandon(more)
      ensures ReuseSafe(After(s, more))
    {
      MatchedStaysSafe(s, more);
    }
    if run != [] {
      var t := Next(s, run[0]);
      InvStep(s, run[0]);
      if run[0].Abandon? && InSlot(s.slots, run[0].fd) {
        var k := AbandonedIsDead(s, run[0].fd);
        DeadSlotMisleads(t, k);
      } else {
        MatchedStep(s, run[0]);
        TidyExactly(t, run[1..]);
      }
    }
  }

  // Reuse is safe throughout a run, and whatever well-behaved callers do from any of its
  // states on, if and only if the run never abandons a socket that stands in a slot.
  lemma ReuseSafeExactly(run: seq<Action>)
    requires CanRun(Init(), run)
    ensures Tidy(Init(), run) <==> AlwaysSafe(Init(), run)
  {
    InitInv();
    TidyExactly(Init(), run);
  }

  lemma AfterOne(s: State, a: Action, rest: seq<Action>)
    requires Enabled(s, a) && CanRun(Next(s, a), rest)
    ensures CanRun(s, [a] + rest) && After(s, [a] + rest) == After(Next(s, a), rest)
  {
    assert ([a] + rest)[1..] == rest;
  }

  lemma AfterTwo(s: State, a: Action, b: Action)
    requires Enabled(s, a) && Enabled(Next(s, a), b)
    ensures CanRun(s, [a, b]) && After(s, [a, b]) == Next(Next(s, a), b)
  {
    AfterOne(Next(s, a), b, []);
    AfterOne(s, a, [b]);
    assert [b] + [] == [b] && [a] + [b] == [a, b];
  }

  lemma FirstAndRest<T>(a: seq<T>, b: seq<T>)
    requires a != []
    ensures a + b == [a[0]] + (a[1..] + b)
  {
  }

  lemma {:induction false} AfterConcat(s: State, run: seq<Action>, more: seq<Action>)
    requires CanRun(s, run) && CanRun(After(s, run), more)
    ensures CanRun(s, run + more) && After(s, run + more) == After(After(s, run), more)
    decreases |run|
  {
    if run == [] {
      assert run + more == more;
    } else {
      var a, rest := run[0], run[1..];
      AfterConcat(Next(s, a), rest, more);
      AfterOne(s, a, rest + more);
      FirstAndRest(run, more);
    }
  }

  // Connected to a and idle, then closed by a failing request.
  function ReuseAndFail(a: Peer): seq<Action> {
    [Connect(a.host, a.port, 3), GiveUp(3, 0)] + [Find(a.host, a.port, 0), Abandon(3)]
  }

  lemma FirstIdle(a: Peer)
    requires |a.host| <= HOST_ROOM
    ensures var run, slot := [Connect(a.host, a.port, 3), GiveUp(3, 0)], Slot(3, a.host, a.port, 0, false);
            && CanRun(Init(), run)
            && Reached(run).slots == Init().slots[0 := slot]
            && Reached(run).peers == map[3 := a] && Reached(run).leases == map[]
  {
    var s := Next(Init(), Connect(a.host, a.port, 3));
    FirstIs(s.slots, HasFd(3), MAX_POOL_SIZE);
    FirstIs(s.slots, IsVacant, 0);
    AfterTwo(Init(), Connect(a.host, a.port, 3), GiveUp(3, 0));
    ClosingNothing(Next(s, GiveUp(3, 0)), s, s.slots[0 := Slot(3, a.host, a.port, 0, false)], 3, 0);
  }

  lemma FailsInUse(s: State, a: Peer)
    requires s.slots == Init().slots[0 := Slot(3, a.host, a.port, 0, false)] && s.peers == map[3 := a]
    ensures var more := [Find(a.host, a.port, 0), Abandon(3)];
            && CanRun(s, more)
            && After(s, more).slots == Init().slots[0 := Slot(3, a.host, a.port, 0, true)]
            && After(s, more).peers == map[]
  {
    FirstIs(s.slots, FreshMatch(a.host, a.port, 0), 0);
    ScanStart(s.slots, StaleMatch(a.host, a.port, 0));
    AfterTwo(s, Find(a.host, a.port, 0), Abandon(3));
  }

  // For any two peers: after a request to a has failed on a reused socket, the number goes to
  // b, and the next caller that asks for a is handed the socket connected to b.
  lemma AbandonedNumberMisleads(a: Peer, b: Peer)
    requires |a.host| <= HOST_ROOM
    ensures var run := ReuseAndFail(a) + [Connect(b.host, b.port, 3), GiveUp(3, 0)];
            && CanRun(Init(), run)
            && Lookup(Reached(run).slots, a.host, a.port, 0).fd == 3
            && Reached(run).peers == map[3 := b]
  {
    FirstIdle(a);
    var first := [Connect(a.host, a.port, 3), GiveUp(3, 0)];
    FailsInUse(Reached(first), a);
    AfterConcat(Init(), first, [Find(a.host, a.port, 0), Abandon(3)]);
    var s := Reached(ReuseAndFail(a));
    InitInv();
    RunInv(Init(), ReuseAndFail(a));
    DeadSlotRevives(s, 0, b, 0);
    AfterConcat(Init(), ReuseAndFail(a), [Connect(b.host, b.port, 3), GiveUp(3, 0)]);
    FirstIs(s.slots[0 := Slot(3, a.host, a.port, 0, false)], FreshMatch(a.host, a.port, 0), 0);
  }

  // ---------------------------------------------------------------- the host, name for name

  ghost predicate ReuseReaches(run: seq<Action>, host: string, port: int, now: int)
    requires CanRun(Init(), run)
  {
    var s, fd := Reached(run), Lookup(Reached(run).slots, host, port, now).fd;
    fd > 0 ==> fd in s.peers && s.peers[fd] == Peer(host, port)
  }

  // One reuse: it leads to the very host asked for exactly when the name the socket was
  // connected under fits a slot; a longer name is cut and then answers for its own prefix.
  lemma ReuseHostOnce(run: seq<Action>, host: string, port: int, now: int)
    requires CanRun(Init(), run) && Tidy(Init(), run) && Lookup(Reached(run).slots, host, port, now).fd > 0
    ensures var s, fd := Reached(run), Lookup(Reached(run).slots, host, port, now).fd;
            && fd in s.peers && Stored(s.peers[fd].host) == host
            && (s.peers[fd] == Peer(host, port) <==> |s.peers[fd].host| <= 255)
  {
    ReuseIsSafe(run, host, port, now);
  }

  lemma ReuseHostOtherLength(run: seq<Action>, host: string, port: int, now: int)
    requires CanRun(Init(), run) && Tidy(Init(), run) && |host| != HOST_ROOM
    ensures ReuseReaches(run, host, port, now)
  {
    if Lookup(Reached(run).slots, host, port, now).fd > 0 {
      ReuseHostOnce(run, host, port, now);
    }
  }

  // What a caller can rely on from the name alone: in every tidy run reuse leads to the host
  // and port asked for, if and only if the name does not have exactly the 255 characters to
  // which a slot cuts longer ones.
  lemma ReuseHostExact(host: string, port: int)
    ensures |host| != 255 <==>
            forall run, now :: CanRun(Init(), run) && Tidy(Init(), run) ==> ReuseReaches(run, host, port, now)
  {
    if |host| == HOST_ROOM {
      LongHostIsMixedUp(host + "x", port);
      assert (host + "x")[..HOST_ROOM] == host;
      var run := [Connect(host + "x", port, 3), GiveUp(3, 0)];
      assert !ReuseReaches(run, host, port, 0);
    } else {
      forall run, now | CanRun(Init(), run) && Tidy(Init(), run)
        ensures ReuseReaches(run, host, port, now)
      {
        ReuseHostOtherLength(run, host, port, now);
      }
    }
  }

  // With a name too long for a slot the mix-up is real: connect to it, give the socket back,
  // and the next caller that asks for the cut name is handed that socket.
  lemma LongHostIsMixedUp(host: string, port: int)
    requires |host| > HOST_ROOM
    ensures var run := [Connect(host, port, 3), GiveUp(3, 0)];
            && CanRun(Init(), run) && Tidy(Init(), run)
            && Lookup(Reached(run).slots, host[..HOST_ROOM], port, 0).fd == 3
            && Reached(run).peers == map[3 := Peer(host, port)]
  {
    var run := [Connect(host, port, 3), GiveUp(3, 0)];
    var s := Next(Init(), run[0]);
    FirstIs(s.slots, HasFd(3), MAX_POOL_SIZE);
    FirstIs(s.slots, IsVacant, 0);
    var t := Next(s, run[1]);
    AfterTwo(Init(), run[0], run[1]);
    NoAbandonIsTidy(Init(), run);
    assert s.peers - SetOf([]) == s.peers;
    assert t.slots[0] == Slot(3, host[..HOST_ROOM], port, 0, false);
    FirstIs(t.slots, FreshMatch(host[..HOST_ROOM], port, 0), 0);
  }
}
