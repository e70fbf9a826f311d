/**
 * What each operation of the connection pool (src/components/connection_pool.c) does to its
 * slots, slot by slot, and which sockets it closes.
 */
module PoolSpec {
  import opened Wrappers

  const MAX_POOL_SIZE: nat := 20
  const CONNECTION_TIMEOUT: int := 30
  const HOST_ROOM: nat := 255  // char host[256], one byte kept for the terminator

  datatype Slot = Slot(fd: int, host: string, port: int, lastUsed: int, inUse: bool)

  // A slot after memset and socket_fd = -1.
  const EMPTY: Slot := Slot(-1, "", 0, 0, false)

  // What strncpy leaves of a host name in a slot.
  function Stored(host: string): string {
    if |host| <= HOST_ROOM then host else host[..HOST_ROOM]
  }

  predicate IsLive(s: Slot) { s.fd > 0 }

  predicate IdleMatch(s: Slot, host: string, port: int) {
    s.fd > 0 && !s.inUse && s.host == host && s.port == port
  }

  predicate TimedOut(s: Slot, now: int) {
    now - s.lastUsed >= CONNECTION_TIMEOUT
  }

  predicate IdleTimedOut(s: Slot, now: int) {
    s.fd > 0 && !s.inUse && TimedOut(s, now)
  }

  // The first index of a slot with p; |slots| when there is none.
  function First(slots: seq<Slot>, p: Slot -> bool): (k: nat)
    ensures k <= |slots|
    ensures k < |slots| ==> p(slots[k])
    ensures forall j :: 0 <= j < k ==> !p(slots[j])
  {
    FirstFrom(slots, p, 0)
  }

  lemma FirstIs(slots: seq<Slot>, p: Slot -> bool, k: nat)
    requires k <= |slots| && (k < |slots| ==> p(slots[k]))
    requires forall j :: 0 <= j < k ==> !p(slots[j])
    ensures First(slots, p) == k
  {
  }

  // Sockets of the slots with p, in slot order.
  function Fds(slots: seq<Slot>, p: Slot -> bool): seq<int> {
    if slots == [] then []
    else
      var n := |slots| - 1;
      Fds(slots[..n], p) + if p(slots[n]) then [slots[n].fd] else []
  }

  // The slots before position i that have p emptied, the others as they were.
  function Scanned(slots: seq<Slot>, i: nat, p: Slot -> bool): (rest: seq<Slot>)
    ensures |rest| == |slots|
  {
    seq(|slots|, j requires 0 <= j < |slots| => if j < i && p(slots[j]) then EMPTY else slots[j])
  }

  // What a scan with p has closed before position i.
  function ScanClosed(slots: seq<Slot>, i: nat, p: Slot -> bool): seq<int>
    requires i <= |slots|
  {
    Fds(slots[..i], p)
  }

  function Live(slots: seq<Slot>): nat {
    |Fds(slots, IsLive)|
  }

  function FreshMatch(host: string, port: int, now: int): Slot -> bool {
    s => IdleMatch(s, host, port) && !TimedOut(s, now)
  }

  function StaleMatch(host: string, port: int, now: int): Slot -> bool {
    s => IdleMatch(s, host, port) && TimedOut(s, now)
  }

  function Expired(now: int): Slot -> bool {
    s => IdleTimedOut(s, now)
  }

  function HasFd(fd: int): Slot -> bool {
    (s: Slot) => s.fd == fd
  }

  predicate IsVacant(s: Slot) { s.fd <= 0 }

  // A socket is in at most one slot.
  ghost predicate SlotsDistinct(slots: seq<Slot>) {
    forall i, j :: 0 <= i < j < |slots| && IsLive(slots[i]) && IsLive(slots[j]) ==> slots[i].fd != slots[j].fd
  }

  // ---------------------------------------------------------------- the operations

  datatype Effect = Effect(slots: seq<Slot>, closed: seq<int>, fd: int)

  // The scan of connection_pool_get: stops at the first fresh idle match, having closed the
  // stale ones before it; fd is -1 when it finds none.
  function Lookup(slots: seq<Slot>, host: string, port: int, now: int): Effect {
    var k := First(slots, FreshMatch(host, port, now));
    var scanned := Scanned(slots, k, StaleMatch(host, port, now));
    var closed := ScanClosed(slots, k, StaleMatch(host, port, now));
    if k < |slots|
    then Effect(scanned[k := slots[k].(inUse := true, lastUsed := now)], closed, slots[k].fd)
    else Effect(scanned, closed, -1)
  }

  // connection_pool_return.
  function GiveBack(slots: seq<Slot>, fd: int, host: string, port: int, keepAlive: bool, now: int): Effect {
    if fd <= 0 then Effect(slots, [], fd)
    else if !keepAlive then Effect(slots, [fd], fd)
    else
      var k := First(slots, HasFd(fd));
      if k < |slots| then Effect(slots[k := slots[k].(inUse := false, lastUsed := now)], [], fd)
      else
        var v := First(slots, IsVacant);
        if v < |slots| then Effect(slots[v := Slot(fd, Stored(host), port, now, false)], [], fd)
        else Effect(slots, [fd], fd)
  }

  // connection_pool_cleanup.
  function Clean(slots: seq<Slot>, now: int): Effect {
    Effect(Scanned(slots, |slots|, Expired(now)), ScanClosed(slots, |slots|, Expired(now)), 0)
  }

  // ---------------------------------------------------------------- facts about the scans

  lemma ScanStart(slots: seq<Slot>, p: Slot -> bool)
    ensures Scanned(slots, 0, p) == slots && ScanClosed(slots, 0, p) == []
  {
    assert slots[..0] == [];
  }

  // Moving a scan over one more slot.
  lemma ScanStep(slots: seq<Slot>, i: nat, p: Slot -> bool)
    requires i < |slots|
    ensures ScanClosed(slots, i + 1, p) == ScanClosed(slots, i, p) + if p(slots[i]) then [slots[i].fd] else []
    ensures Scanned(slots, i + 1, p)
         == if p(slots[i]) then Scanned(slots, i, p)[i := EMPTY] else Scanned(slots, i, p)
    ensures Scanned(slots, i, p)[i] == slots[i]
  {
    assert slots[..i + 1][..i] == slots[..i];
  }

  lemma {:induction false} FdsConcat(a: seq<Slot>, b: seq<Slot>, p: Slot -> bool)
    ensures Fds(a + b, p) == Fds(a, p) + Fds(b, p)
  {
    if b == [] {
      assert a + b == a;
    } else {
      var n := |b| - 1;
      FdsConcat(a, b[..n], p);
      assert (a + b)[..|a| + n] == a + b[..n];
    }
  }

  lemma FdsOne(s: Slot, p: Slot -> bool)
    ensures Fds([s], p) == if p(s) then [s.fd] else []
  {
    assert [s][..0] == [];
    assert Fds([], p) == [];
  }

  lemma FdsAround(slots: seq<Slot>, k: nat, v: Slot, p: Slot -> bool)
    requires k < |slots|
    ensures Fds(slots, p) == Fds(slots[..k], p) + (if p(slots[k]) then [slots[k].fd] else []) + Fds(slots[k + 1..], p)
    ensures Fds(slots[k := v], p) == Fds(slots[..k], p) + (if p(v) then [v.fd] else []) + Fds(slots[k + 1..], p)
  {
    assert slots == slots[..k] + [slots[k]] + slots[k + 1..];
    assert slots[k := v] == slots[..k] + [v] + slots[k + 1..];
    FdsOne(slots[k], p);
    FdsOne(v, p);
    FdsConcat(slots[..k] + [slots[k]], slots[k + 1..], p);
    FdsConcat(slots[..k], [slots[k]], p);
    FdsConcat(slots[..k] + [v], slots[k + 1..], p);
    FdsConcat(slots[..k], [v], p);
  }

  lemma LiveUpdate(slots: seq<Slot>, k: nat, v: Slot)
    requires k < |slots|
    ensures Live(slots[k := v]) == Live(slots) - (if IsLive(slots[k]) then 1 else 0) + (if IsLive(v) then 1 else 0)
  {
    FdsAround(slots, k, v, IsLive);
  }

  // ---------------------------------------------------------------- no socket in two slots

  lemma ScanKeepsDistinct(slots: seq<Slot>, i: nat, p: Slot -> bool)
    requires SlotsDistinct(slots)
    ensures SlotsDistinct(Scanned(slots, i, p))
  {
    var t := Scanned(slots, i, p);
    assert forall j :: 0 <= j < |t| && IsLive(t[j]) ==> t[j] == slots[j];
  }

  // Overwriting a slot with its own socket, no socket, or one that is nowhere else.
  lemma PutKeepsDistinct(slots: seq<Slot>, k: nat, v: Slot)
    requires SlotsDistinct(slots) && k < |slots|
    requires IsLive(v) ==> forall j :: 0 <= j < |slots| && j != k ==> slots[j].fd != v.fd
    ensures SlotsDistinct(slots[k := v])
  {
    var t := slots[k := v];
    assert forall j :: 0 <= j < |t| && j != k ==> t[j] == slots[j];
  }

  lemma OthersDiffer(slots: seq<Slot>, k: nat)
    requires SlotsDistinct(slots) && k < |slots| && IsLive(slots[k])
    ensures forall j :: 0 <= j < |slots| && j != k ==> slots[j].fd != slots[k].fd
  {
  }

  lemma {:induction false} FdsMembers(slots: seq<Slot>, p: Slot -> bool, fd: int)
    ensures fd in Fds(slots, p) <==> exists i :: 0 <= i < |slots| && p(slots[i]) && slots[i].fd == fd
  {
    if slots != [] {
      var n := |slots| - 1;
      FdsMembers(slots[..n], p, fd);
      if fd in Fds(slots[..n], p) {
        var i :| 0 <= i < n && p(slots[..n][i]) && slots[..n][i].fd == fd;
        assert p(slots[i]) && slots[i].fd == fd;
      }
      if i :| 0 <= i < n && p(slots[i]) && slots[i].fd == fd {
        assert p(slots[..n][i]);
      }
    }
  }

  // Every operation keeps a socket in at most one slot, whatever its callers do: for any
  // socket number, any keep-alive and repeated returns.
  lemma OperationsKeepDistinct(slots: seq<Slot>, fd: int, host: string, port: int, keepAlive: bool, now: int)
    requires SlotsDistinct(slots)
    ensures SlotsDistinct(Lookup(slots, host, port, now).slots)
    ensures SlotsDistinct(GiveBack(slots, fd, host, port, keepAlive, now).slots)
    ensures SlotsDistinct(Clean(slots, now).slots)
  {
    LookupKeepsDistinct(slots, host, port, now);
    GiveBackKeepsDistinct(slots, fd, host, port, keepAlive, now);
    ScanKeepsDistinct(slots, |slots|, Expired(now));
  }

  lemma LookupKeepsDistinct(slots: seq<Slot>, host: string, port: int, now: int)
    requires SlotsDistinct(slots)
    ensures SlotsDistinct(Lookup(slots, host, port, now).slots)
  {
    var k, p := First(slots, FreshMatch(host, port, now)), StaleMatch(host, port, now);
    ScanKeepsDistinct(slots, k, p);
    if k < |slots| {
      var t := Scanned(slots, k, p);
      assert t[k] == slots[k];
      OthersDiffer(t, k);
      PutKeepsDistinct(t, k, slots[k].(inUse := true, lastUsed := now));
    }
  }

  lemma GiveBackKeepsDistinct(slots: seq<Slot>, fd: int, host: string, port: int, keepAlive: bool, now: int)
    requires SlotsDistinct(slots)
    ensures SlotsDistinct(GiveBack(slots, fd, host, port, keepAlive, now).slots)
  {
    var k, v := First(slots, HasFd(fd)), First(slots, IsVacant);
    if fd > 0 && keepAlive {
      if k < |slots| {
        OthersDiffer(slots, k);
        PutKeepsDistinct(slots, k, slots[k].(inUse := false, lastUsed := now));
      } else if v < |slots| {
        PutKeepsDistinct(slots, v, Slot(fd, Stored(host), port, now, false));
      }
    }
  }
}
