/**
 * The connection pool of src/components/connection_pool.c: an array of slots scanned and
 * overwritten in place under pool_mutex, with a running count of live slots.
 */
module ConnectionPool {
  import opened PoolSpec

  class ConnectionPool {
    const connections: array<Slot>
    var poolSize: int
    ghost var closed: seq<int>  // every socket the pool has closed, in order

    // The count is the number of slots with a positive socket, and no socket is in two slots.
    ghost predicate Valid()
      reads this, connections
    {
      && connections.Length == MAX_POOL_SIZE
      && poolSize == Live(connections[..])
      && SlotsDistinct(connections[..])
    }

    constructor ()
      ensures Valid() && fresh(connections) && closed == []
      ensures connections.Length == 20
      ensures forall i :: 0 <= i < 20 ==> connections[i] == Slot(-1, "", 0, 0, false)
    {
      connections := new Slot[MAX_POOL_SIZE](_ => EMPTY);
      poolSize := 0;
      closed := [];
      new;
      NoneLive(connections[..]);
    }

    lemma {:induction false} NoneLive(slots: seq<Slot>)
      requires forall i :: 0 <= i < |slots| ==> slots[i] == EMPTY
      ensures Live(slots) == 0
    {
      if slots != [] {
        NoneLive(slots[..|slots| - 1]);
      }
    }

    // Overwrites slot i; `change` is what the caller adds to pool_size.
    method Put(i: nat, slot: Slot, change: int)
      requires Valid() && i < MAX_POOL_SIZE
      requires change == (if slot.fd > 0 then 1 else 0) - (if connections[i].fd > 0 then 1 else 0)
      requires slot.fd > 0 ==> forall j :: 0 <= j < MAX_POOL_SIZE && j != i ==> connections[j].fd != slot.fd
      modifies this`poolSize, connections
      ensures Valid() && connections[..] == old(connections[..])[i := slot]
      ensures poolSize == old(poolSize) + change
    {
      LiveUpdate(connections[..], i, slot);
      PutKeepsDistinct(connections[..], i, slot);
      connections[i] := slot;
      poolSize := poolSize + change;
      assert connections[..] == old(connections[..])[i := slot];
    }

    // socket_close, memset and pool_size-- on a live slot.
    method CloseSlot(i: nat)
      requires Valid() && i < MAX_POOL_SIZE && connections[i].fd > 0
      modifies this, connections
      ensures Valid() && connections[..] == old(connections[..])[i := EMPTY]
      ensures closed == old(closed) + [old(connections[i].fd)]
    {
      closed := closed + [connections[i].fd];
      Put(i, EMPTY, -1);
    }

    // connection_pool_get; `connected` is what create_persistent_connection would return.
    method Get(host: string, port: int, now: int, connected: int) returns (fd: int)
      requires Valid()
      modifies this, connections
      ensures Valid()
      ensures var found := Lookup(old(connections[..]), host, port, now);
              && connections[..] == found.slots
              && closed == old(closed) + found.closed
              && fd == if found.fd > 0 then found.fd else connected
    {
      ghost var was := connections[..];
      ghost var stale := StaleMatch(host, port, now);
      ScanStart(was, stale);
      for i := 0 to MAX_POOL_SIZE
        invariant Valid()
        invariant connections[..] == Scanned(was, i, stale)
        invariant closed == old(closed) + ScanClosed(was, i, stale)
        invariant forall j :: 0 <= j < i ==> !FreshMatch(host, port, now)(was[j])
      {
        ScanStep(was, i, stale);
        assert connections[..][i] == was[i];
        var conn := connections[i];
        if conn.fd > 0 && !conn.inUse && conn.host == host && conn.port == port {
          if now - conn.lastUsed < CONNECTION_TIMEOUT {
            FirstIs(was, FreshMatch(host, port, now), i);
            OthersDiffer(connections[..], i);
            Put(i, conn.(inUse := true, lastUsed := now), 0);
            return conn.fd;
          } else {
            CloseSlot(i);
          }
        }
      }
      FirstIs(was, FreshMatch(host, port, now), MAX_POOL_SIZE);
      fd := connected;
    }

    // connection_pool_return.
    method Return(fd: int, host: string, port: int, keepAlive: bool, now: int)
      requires Valid()
      modifies this, connections
      ensures Valid()
      ensures var done := GiveBack(old(connections[..]), fd, host, port, keepAlive, now);
              connections[..] == done.slots && closed == old(closed) + done.closed
    {
      if fd <= 0 {
        return;
      }
      if !keepAlive {
        closed := closed + [fd];
        return;
      }
      ghost var was := connections[..];
      for i := 0 to MAX_POOL_SIZE
        invariant Valid() && connections[..] == was && closed == old(closed)
        invariant forall j :: 0 <= j < i ==> !HasFd(fd)(was[j])
      {
        if connections[i].fd == fd {
          FirstIs(was, HasFd(fd), i);
          OthersDiffer(connections[..], i);
          Put(i, connections[i].(inUse := false, lastUsed := now), 0);
          return;
        }
      }
      FirstIs(was, HasFd(fd), MAX_POOL_SIZE);
      for i := 0 to MAX_POOL_SIZE
        invariant Valid() && connections[..] == was && closed == old(closed)
        invariant forall j :: 0 <= j < i ==> !IsVacant(was[j])
      {
        if connections[i].fd <= 0 {
          FirstIs(was, IsVacant, i);
          Put(i, Slot(fd, Stored(host), port, now, false), 1);
          return;
        }
      }
      FirstIs(was, IsVacant, MAX_POOL_SIZE);
      closed := closed + [fd];
    }

    // connection_pool_cleanup.
    method Cleanup(now: int)
      requires Valid()
      modifies this, connections
      ensures Valid()
      ensures var done := Clean(old(connections[..]), now);
              connections[..] == done.slots && closed == old(closed) + done.closed
    {
      ghost var was := connections[..];
      ScanStart(was, Expired(now));
      for i := 0 to MAX_POOL_SIZE
        invariant Valid()
        invariant connections[..] == Scanned(was, i, Expired(now))
        invariant closed == old(closed) + ScanClosed(was, i, Expired(now))
      {
        ScanStep(was, i, Expired(now));
        assert connections[..][i] == was[i];
        var conn := connections[i];
        if conn.fd > 0 && !conn.inUse && now - conn.lastUsed >= CONNECTION_TIMEOUT {
          CloseSlot(i);
        }
      }
    }

    // connection_pool_destroy: closes every live socket, leased ones too.
    method Destroy()
      requires Valid()
      modifies this`closed
      ensures closed == old(closed) + Fds(connections[..], IsLive)
    {
      ghost var was := connections[..];
      ScanStart(was, IsLive);
      for i := 0 to MAX_POOL_SIZE
        invariant closed == old(closed) + ScanClosed(was, i, IsLive)
      {
        ScanStep(was, i, IsLive);
        if connections[i].fd > 0 {
          closed := closed + [connections[i].fd];
        }
      }
      assert was[..MAX_POOL_SIZE] == was;
    }
  }
}
