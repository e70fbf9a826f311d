/**
 * The connection pool slot by slot: which slots each operation empties, hands out, marks or
 * fills, which it leaves alone, and which sockets it closes, in which order.
 */
module PoolSlots {
  import opened PoolSpec

  // An idle connection to this host and port.
  predicate IdleFor(s: Slot, host: string, port: int) {
    s.fd > 0 && !s.inUse && s.host == host && s.port == port
  }

  predicate Old(s: Slot, now: int) {
    now - s.lastUsed >= 30
  }

  ghost predicate Rising(at: seq<nat>) {
    forall i, j :: 0 <= i < j < |at| ==> at[i] < at[j]
  }

  // `closed` are the sockets of the slots at these positions, in slot order.
  ghost predicate SocketsAt(closed: seq<int>, slots: seq<Slot>, at: seq<nat>) {
    && |closed| == |at| && Rising(at)
    && forall i :: 0 <= i < |at| ==> at[i] < |slots| && closed[i] == slots[at[i]].fd
  }

  lemma SocketsGrow(closed: seq<int>, slots: seq<Slot>, at: seq<nat>, slot: Slot)
    requires SocketsAt(closed, slots, at)
    ensures SocketsAt(closed, slots + [slot], at)
    ensures SocketsAt(closed + [slot.fd], slots + [slot], at + [|slots|])
  {
  }

  ghost predicate Positions(at: seq<nat>, slots: seq<Slot>, p: Slot -> bool) {
    forall j: nat :: j in at <==> j < |slots| && p(slots[j])
  }

  lemma PositionsGrow(at: seq<nat>, slots: seq<Slot>, p: Slot -> bool, slot: Slot)
    requires Positions(at, slots, p)
    ensures Positions(if p(slot) then at + [|slots|] else at, slots + [slot], p)
  {
  }

  lemma FdsSnoc(slots: seq<Slot>, slot: Slot, p: Slot -> bool)
    ensures Fds(slots + [slot], p) == Fds(slots, p) + if p(slot) then [slot.fd] else []
  {
    assert (slots + [slot])[..|slots|] == slots;
  }

  lemma FdsAtSnoc(slots: seq<Slot>, slot: Slot, p: Slot -> bool, at: seq<nat>) returns (more: seq<nat>)
    requires SocketsAt(Fds(slots, p), slots, at) && Positions(at, slots, p)
    ensures SocketsAt(Fds(slots + [slot], p), slots + [slot], more) && Positions(more, slots + [slot], p)
  {
    SocketsGrow(Fds(slots, p), slots, at, slot);
    PositionsGrow(at, slots, p, slot);
    FdsSnoc(slots, slot, p);
    more := if p(slot) then at + [|slots|] else at;
  }

  lemma {:induction false} FdsAt(slots: seq<Slot>, p: Slot -> bool) returns (at: seq<nat>)
    ensures SocketsAt(Fds(slots, p), slots, at) && Positions(at, slots, p)
  {
    at := [];
    if slots != [] {
      var before, last := slots[..|slots| - 1], slots[|slots| - 1];
      assert slots == before + [last];
      at := FdsAt(before, p);
      at := FdsAtSnoc(before, last, p, at);
    }
  }

  // Position k is the first with the property, or there is none and k is the end.
  ghost predicate FirstWith(slots: seq<Slot>, has: Slot -> bool, k: nat) {
    && k <= |slots| && (k < |slots| ==> has(slots[k]))
    && forall i :: 0 <= i < k ==> !has(slots[i])
  }

  // connection_pool_get: the first idle connection for the host and port that is not old is
  // handed out; every old one before it is closed and its slot emptied; nothing else changes.
  lemma LookupSlots(slots: seq<Slot>, host: string, port: int, now: int) returns (k: nat, at: seq<nat>)
    ensures FirstWith(slots, (s: Slot) => IdleFor(s, host, port) && !Old(s, now), k)
    ensures forall i: nat :: i in at <==> i < k && IdleFor(slots[i], host, port) && Old(slots[i], now)
    ensures var found := Lookup(slots, host, port, now);
            && |found.slots| == |slots|
            && found.fd == (if k < |slots| then slots[k].fd else -1)
            && (k < |slots| ==> found.slots[k] == slots[k].(inUse := true, lastUsed := now))
            && SocketsAt(found.closed, slots, at)
            && forall i: nat :: i < |slots| && i != k ==>
                 found.slots[i] == if i in at then Slot(-1, "", 0, 0, false) else slots[i]
  {
    k := First(slots, FreshMatch(host, port, now));
    at := FdsAt(slots[..k], StaleMatch(host, port, now));
    assert forall i: nat :: i < k ==> slots[..k][i] == slots[i];
  }

  // connection_pool_return: no socket, or one that is not kept alive; the socket's own slot;
  // else the first vacant slot, with the host cut to 255 characters; else the socket is closed.
  lemma GiveBackSlots(slots: seq<Slot>, fd: int, host: string, port: int, keepAlive: bool, now: int)
    returns (own: nat, vacant: nat)
    ensures FirstWith(slots, (s: Slot) => s.fd == fd, own)
    ensures FirstWith(slots, (s: Slot) => s.fd <= 0, vacant)
    ensures var done, name := GiveBack(slots, fd, host, port, keepAlive, now), if |host| > 255 then host[..255] else host;
            && (fd <= 0 ==> done.slots == slots && done.closed == [])
            && (fd > 0 && !keepAlive ==> done.slots == slots && done.closed == [fd])
            && (fd > 0 && keepAlive ==>
                 done.slots == (if own < |slots| then slots[own := slots[own].(inUse := false, lastUsed := now)]
                                else if vacant < |slots| then slots[vacant := Slot(fd, name, port, now, false)]
                                else slots))
            && (fd > 0 && keepAlive ==>
                 done.closed == if own == |slots| && vacant == |slots| then [fd] else [])
  {
    own, vacant := First(slots, HasFd(fd)), First(slots, IsVacant);
  }

  // connection_pool_cleanup: exactly the old idle connections are closed.
  lemma CleanSlots(slots: seq<Slot>, now: int) returns (at: seq<nat>)
    ensures forall i: nat :: i in at <==> i < |slots| && slots[i].fd > 0 && !slots[i].inUse && Old(slots[i], now)
    ensures var done := Clean(slots, now);
            && |done.slots| == |slots| && SocketsAt(done.closed, slots, at)
            && forall i: nat :: i < |slots| ==> done.slots[i] == if i in at then Slot(-1, "", 0, 0, false) else slots[i]
  {
    at := FdsAt(slots, Expired(now));
    assert slots[..|slots|] == slots;
  }

  // connection_pool_destroy: every live socket, in slot order.
  lemma LiveSlots(slots: seq<Slot>) returns (at: seq<nat>)
    ensures SocketsAt(Fds(slots, IsLive), slots, at)
    ensures forall i: nat :: i in at <==> i < |slots| && slots[i].fd > 0
    ensures Live(slots) == |at|
  {
    at := FdsAt(slots, IsLive);
  }
}
