/**
 * The connection pool together with the callers that lease sockets from it.  A caller gets a
 * socket from the scan of connection_pool_get or from create_persistent_connection.  It gives
 * the socket back once, open, for the host and port it asked for, or abandons it: closes it
 * without a word to the pool.  The steps of all callers interleave freely.
 */
module Leases {
  import opened PoolSpec

  datatype Peer = Peer(host: string, port: int)

  datatype State = State(
    slots: seq<Slot>,
    leases: map<int, Peer>,    // sockets callers hold, with what they asked for
    peers: map<int, Peer>,     // open sockets, with what they were connected to
    idleSince: map<int, int>,  // when each socket was last given back
    made: multiset<int>,       // every successful connect
    closed: multiset<int>)     // every socket_close

  datatype Action =
    | Find(host: string, port: int, now: int)
    | Connect(host: string, port: int, fd: int)
    | GiveUp(fd: int, now: int)
    | Abandon(fd: int)  // the error exits of a request, and a return without keep-alive
    | CleanUp(now: int)

  function Init(): State {
    State(seq(MAX_POOL_SIZE, _ => EMPTY), map[], map[], map[], multiset{}, multiset{})
  }

  predicate Enabled(s: State, a: Action) {
    match a
    case Find(_, _, _) => true
    case Connect(_, _, fd) => fd > 0 && fd !in s.peers  // a number that is not open
    case GiveUp(fd, _) => fd in s.leases
    case Abandon(fd) => fd in s.leases
    case CleanUp(_) => true
  }

  function SetOf(fds: seq<int>): set<int> {
    set fd | fd in fds
  }

  function CloseAll(s: State, fds: seq<int>): State {
    s.(closed := s.closed + multiset(fds), peers := s.peers - SetOf(fds))
  }

  function Next(s: State, a: Action): State
    requires Enabled(s, a)
  {
    match a
    case Find(host, port, now) =>
      var found := Lookup(s.slots, host, port, now);
      var t := CloseAll(s.(slots := found.slots), found.closed);
      if found.fd > 0 then t.(leases := s.leases[found.fd := Peer(host, port)]) else t
    case Connect(host, port, fd) =>
      s.(leases := s.leases[fd := Peer(host, port)], peers := s.peers[fd := Peer(host, port)],
         made := s.made + multiset{fd})
    case GiveUp(fd, now) =>
      var done := GiveBack(s.slots, fd, s.leases[fd].host, s.leases[fd].port, true, now);
      var t := s.(slots := done.slots, leases := s.leases - {fd}, idleSince := s.idleSince[fd := now]);
      CloseAll(t, done.closed)
    case Abandon(fd) =>
      CloseAll(s.(leases := s.leases - {fd}), [fd])
    case CleanUp(now) =>
      var done := Clean(s.slots, now);
      CloseAll(s.(slots := done.slots), done.closed)
  }

  predicate CanRun(s: State, run: seq<Action>)
    decreases |run|
  {
    run == [] || (Enabled(s, run[0]) && CanRun(Next(s, run[0]), run[1..]))
  }

  function After(s: State, run: seq<Action>): State
    requires CanRun(s, run)
    decreases |run|
  {
    if run == [] then s else After(Next(s, run[0]), run[1..])
  }

  // ---------------------------------------------------------------- the invariants

  // A live slot whose socket has been closed without it.
  predicate Dead(s: State, slot: Slot) {
    IsLive(slot) && slot.fd !in s.peers
  }

  // A live slot is in use exactly when its socket is leased or the slot is dead, and otherwise
  // records when the socket was given back.
  ghost predicate SlotOk(s: State, slot: Slot) {
    IsLive(slot) ==>
      && (slot.inUse <==> slot.fd in s.leases || Dead(s, slot))
      && (!slot.inUse ==> slot.fd in s.idleSince && slot.lastUsed == s.idleSince[slot.fd])
  }

  ghost predicate LeaseOk(s: State, fd: int) {
    fd in s.leases ==> fd > 0 && fd in s.peers
  }

  ghost predicate InSlot(slots: seq<Slot>, fd: int) {
    exists i :: 0 <= i < |slots| && slots[i].fd == fd
  }

  // Every open socket is leased or in a slot.
  ghost predicate Accounted(s: State, fd: int) {
    fd in s.peers ==> fd > 0 && (fd in s.leases || InSlot(s.slots, fd))
  }

  // Each connect is matched by a close unless the socket is still open.
  predicate Balanced(s: State, fd: int) {
    s.made[fd] == s.closed[fd] + if fd in s.peers then 1 else 0
  }

  ghost predicate Inv(s: State) {
    && SlotsDistinct(s.slots)
    && (forall i :: 0 <= i < |s.slots| ==> SlotOk(s, s.slots[i]))
    && (forall fd :: LeaseOk(s, fd))
    && (forall fd :: Accounted(s, fd))
    && (forall fd :: Balanced(s, fd))
  }

  // ---------------------------------------------------------------- closing a set of slots

  lemma {:induction false} FdsOnce(slots: seq<Slot>, p: Slot -> bool, fd: int)
    requires SlotsDistinct(slots) && forall x :: p(x) ==> IsLive(x)
    ensures multiset(Fds(slots, p))[fd] <= 1
  {
    if slots != [] {
      var n := |slots| - 1;
      FdsOnce(slots[..n], p, fd);
      FdsMembers(slots[..n], p, slots[n].fd);
    }
  }

  // Emptying idle slots and closing their sockets keeps every invariant.
  lemma ScanKeeps(s: State, k: nat, p: Slot -> bool)
    requires Inv(s) && k <= |s.slots|
    requires forall x :: p(x) ==> IsLive(x) && !x.inUse
    ensures Inv(CloseAll(s.(slots := Scanned(s.slots, k, p)), ScanClosed(s.slots, k, p)))
    ensures CloseAll(s.(slots := Scanned(s.slots, k, p)), ScanClosed(s.slots, k, p)).leases == s.leases
  {
    var fds := ScanClosed(s.slots, k, p);
    var t := CloseAll(s.(slots := Scanned(s.slots, k, p)), fds);
    forall fd
      ensures fd in fds <==> exists i :: 0 <= i < k && p(s.slots[i]) && s.slots[i].fd == fd
    {
      FdsMembers(s.slots[..k], p, fd);
      if i :| 0 <= i < k && p(s.slots[i]) && s.slots[i].fd == fd {
        assert p(s.slots[..k][i]);
      }
    }
    ScanSlots(s, t, k, p, fds);
    forall fd
      ensures LeaseOk(t, fd) && Accounted(t, fd) && Balanced(t, fd)
    {
      ScanSocket(s, t, k, p, fds, fd);
    }
  }

  lemma ScanSlots(s: State, t: State, k: nat, p: Slot -> bool, fds: seq<int>)
    requires Inv(s) && k <= |s.slots|
    requires t == CloseAll(s.(slots := Scanned(s.slots, k, p)), fds)
    requires forall fd :: fd in fds <==> exists i :: 0 <= i < k && p(s.slots[i]) && s.slots[i].fd == fd
    requires forall x :: p(x) ==> IsLive(x) && !x.inUse
    ensures SlotsDistinct(t.slots)
    ensures forall i :: 0 <= i < |t.slots| ==> SlotOk(t, t.slots[i])
  {
    forall i | 0 <= i < |t.slots|
      ensures SlotOk(t, t.slots[i])
    {
      assert SlotOk(s, s.slots[i]);
      if IsLive(t.slots[i]) {
        forall j | 0 <= j < k && p(s.slots[j])
          ensures s.slots[j].fd != t.slots[i].fd
        {
          assert j != i;
        }
      }
    }
  }

  lemma ScanSocket(s: State, t: State, k: nat, p: Slot -> bool, fds: seq<int>, fd: int)
    requires Inv(s) && k <= |s.slots| && fds == ScanClosed(s.slots, k, p)
    requires t == CloseAll(s.(slots := Scanned(s.slots, k, p)), fds)
    requires fd in fds <==> exists i :: 0 <= i < k && p(s.slots[i]) && s.slots[i].fd == fd
    requires forall x :: p(x) ==> IsLive(x) && !x.inUse
    ensures LeaseOk(t, fd) && Accounted(t, fd) && Balanced(t, fd)
  {
    assert LeaseOk(s, fd) && Accounted(s, fd) && Balanced(s, fd);
    FdsOnce(s.slots[..k], p, fd);
    if fd in fds {
      var i :| 0 <= i < k && p(s.slots[i]) && s.slots[i].fd == fd;
      assert SlotOk(s, s.slots[i]);
      assert multiset(fds)[fd] == 1;
    } else {
      assert multiset(fds)[fd] == 0;
      if fd in s.peers && InSlot(s.slots, fd) {
        var i :| 0 <= i < |s.slots| && s.slots[i].fd == fd;
        assert t.slots[i].fd == fd;
      }
    }
  }

  // ---------------------------------------------------------------- the steps

  // Marking an idle slot in use leases its socket.
  lemma LeaseKeeps(s: State, k: nat, host: string, port: int, now: int)
    requires Inv(s) && k < |s.slots| && IdleMatch(s.slots[k], host, port)
    ensures Inv(s.(slots := s.slots[k := s.slots[k].(inUse := true, lastUsed := now)],
                   leases := s.leases[s.slots[k].fd := Peer(host, port)]))
  {
    var fd := s.slots[k].fd;
    var t := s.(slots := s.slots[k := s.slots[k].(inUse := true, lastUsed := now)],
                leases := s.leases[fd := Peer(host, port)]);
    assert SlotOk(s, s.slots[k]);
    forall i | 0 <= i < |t.slots|
      ensures SlotOk(t, t.slots[i])
    {
      assert SlotOk(s, s.slots[i]);
    }
    forall x
      ensures LeaseOk(t, x) && Accounted(t, x) && Balanced(t, x)
    {
      assert LeaseOk(s, x) && Accounted(s, x) && Balanced(s, x);
      if x > 0 && InSlot(s.slots, x) {
        SlotsStillHold(s.slots, t.slots, x);
      }
    }
  }

  lemma SlotsStillHold(slots: seq<Slot>, others: seq<Slot>, fd: int)
    requires |slots| == |others| && InSlot(slots, fd) && fd > 0
    requires forall i :: 0 <= i < |slots| && IsLive(slots[i]) ==> others[i].fd == slots[i].fd
    ensures InSlot(others, fd)
  {
    var i :| 0 <= i < |slots| && slots[i].fd == fd;
    assert others[i].fd == fd;
  }

  lemma FindKeeps(s: State, host: string, port: int, now: int)
    requires Inv(s)
    ensures Inv(Next(s, Find(host, port, now)))
  {
    var p := StaleMatch(host, port, now);
    var k := First(s.slots, FreshMatch(host, port, now));
    ScanKeeps(s, k, p);
    var t := CloseAll(s.(slots := Scanned(s.slots, k, p)), ScanClosed(s.slots, k, p));
    if k < |s.slots| {
      assert t.slots[k] == s.slots[k];
      LeaseKeeps(t, k, host, port, now);
    }
  }

  lemma ConnectKeeps(s: State, host: string, port: int, fd: int)
    requires Inv(s) && Enabled(s, Connect(host, port, fd))
    ensures Inv(Next(s, Connect(host, port, fd)))
  {
    var t := Next(s, Connect(host, port, fd));
    assert LeaseOk(s, fd);
    forall i | 0 <= i < |t.slots|
      ensures SlotOk(t, t.slots[i])
    {
      assert SlotOk(s, s.slots[i]);
    }
    forall x
      ensures LeaseOk(t, x) && Accounted(t, x) && Balanced(t, x)
    {
      assert LeaseOk(s, x) && Accounted(s, x) && Balanced(s, x);
    }
  }

  // Storing a leased socket in slot k, which holds it already or is vacant.
  lemma StoreKeeps(s: State, fd: int, k: nat, now: int, slot: Slot)
    requires Inv(s) && fd in s.leases && fd in s.peers && k < |s.slots|
    requires s.slots[k].fd == fd || (IsVacant(s.slots[k]) && !InSlot(s.slots, fd))
    requires slot.fd == fd && slot.lastUsed == now && !slot.inUse
    ensures Inv(s.(slots := s.slots[k := slot], leases := s.leases - {fd}, idleSince := s.idleSince[fd := now]))
  {
    var t := s.(slots := s.slots[k := slot], leases := s.leases - {fd}, idleSince := s.idleSince[fd := now]);
    assert LeaseOk(s, fd);
    forall i | 0 <= i < |t.slots|
      ensures SlotOk(t, t.slots[i])
      ensures i != k && IsLive(t.slots[i]) ==> t.slots[i].fd != fd
    {
      assert SlotOk(s, s.slots[i]);
    }
    forall x
      ensures LeaseOk(t, x) && Accounted(t, x) && Balanced(t, x)
    {
      assert LeaseOk(s, x) && Accounted(s, x) && Balanced(s, x);
      assert t.slots[k].fd == fd;
      if x > 0 && InSlot(s.slots, x) {
        SlotsStillHold(s.slots, t.slots, x);
      }
    }
  }

  // With no vacant slot the socket is closed instead.
  lemma DropKeeps(s: State, fd: int, now: int)
    requires Inv(s) && fd in s.leases && !InSlot(s.slots, fd)
    ensures Inv(CloseAll(s.(leases := s.leases - {fd}, idleSince := s.idleSince[fd := now]), [fd]))
  {
    var t := CloseAll(s.(leases := s.leases - {fd}, idleSince := s.idleSince[fd := now]), [fd]);
    assert LeaseOk(s, fd);
    forall i | 0 <= i < |t.slots|
      ensures SlotOk(t, t.slots[i])
    {
      assert SlotOk(s, s.slots[i]);
    }
    forall x
      ensures LeaseOk(t, x) && Accounted(t, x) && Balanced(t, x)
    {
      assert LeaseOk(s, x) && Accounted(s, x) && Balanced(s, x);
      assert multiset([fd])[x] == if x == fd then 1 else 0;
    }
  }

  lemma GiveUpKeeps(s: State, fd: int, now: int)
    requires Inv(s) && fd in s.leases
    ensures Inv(Next(s, GiveUp(fd, now)))
  {
    assert LeaseOk(s, fd);
    var host, port := s.leases[fd].host, s.leases[fd].port;
    var k, v := First(s.slots, HasFd(fd)), First(s.slots, IsVacant);
    if k < |s.slots| {
      assert SlotOk(s, s.slots[k]);
      StoreKeeps(s, fd, k, now, s.slots[k].(inUse := false, lastUsed := now));
      ClosingNothing(Next(s, GiveUp(fd, now)), s, s.slots[k := s.slots[k].(inUse := false, lastUsed := now)], fd, now);
    } else {
      assert !InSlot(s.slots, fd);
      if v < |s.slots| {
        StoreKeeps(s, fd, v, now, Slot(fd, Stored(host), port, now, false));
        ClosingNothing(Next(s, GiveUp(fd, now)), s, s.slots[v := Slot(fd, Stored(host), port, now, false)], fd, now);
      } else {
        DropKeeps(s, fd, now);
      }
    }
  }

  lemma ClosingNothing(t: State, s: State, slots: seq<Slot>, fd: int, now: int)
    requires t == CloseAll(s.(slots := slots, leases := s.leases - {fd}, idleSince := s.idleSince[fd := now]), [])
    ensures t == s.(slots := slots, leases := s.leases - {fd}, idleSince := s.idleSince[fd := now])
  {
    assert s.closed + multiset([]) == s.closed;
    assert s.peers - SetOf([]) == s.peers;
  }

  // Abandoning a socket leaves its slot, if it has one, dead and in use.
  lemma AbandonKeeps(s: State, fd: int)
    requires Inv(s) && fd in s.leases
    ensures Inv(Next(s, Abandon(fd)))
  {
    var t := Next(s, Abandon(fd));
    assert LeaseOk(s, fd);
    forall i | 0 <= i < |t.slots|
      ensures SlotOk(t, t.slots[i])
    {
      assert SlotOk(s, s.slots[i]);
    }
    forall x
      ensures LeaseOk(t, x) && Accounted(t, x) && Balanced(t, x)
    {
      assert LeaseOk(s, x) && Accounted(s, x) && Balanced(s, x);
      assert multiset([fd])[x] == if x == fd then 1 else 0;
    }
  }

  lemma InvStep(s: State, a: Action)
    requires Inv(s) && Enabled(s, a)
    ensures Inv(Next(s, a))
  {
    match a
    case Find(host, port, now) => FindKeeps(s, host, port, now);
    case Connect(host, port, fd) => ConnectKeeps(s, host, port, fd);
    case GiveUp(fd, now) => GiveUpKeeps(s, fd, now);
    case Abandon(fd) => AbandonKeeps(s, fd);
    case CleanUp(now) => ScanKeeps(s, |s.slots|, Expired(now));
  }

  lemma {:induction false} RunInv(s: State, run: seq<Action>)
    requires Inv(s) && CanRun(s, run)
    ensures Inv(After(s, run))
    decreases |run|
  {
    if run != [] {
      InvStep(s, run[0]);
      RunInv(Next(s, run[0]), run[1..]);
    }
  }

  function Reached(run: seq<Action>): State
    requires CanRun(Init(), run)
  {
    After(Init(), run)
  }

  // ---------------------------------------------------------------- what callers rely on

  lemma CleanUpSocket(s: State, now: int, fd: int)
    requires Inv(s)
    ensures fd in Next(s, CleanUp(now)).peers <==>
              (fd in s.peers && (fd in s.leases || (fd in s.idleSince && now - s.idleSince[fd] < 30)))
  {
    assert Accounted(s, fd);
    FdsMembers(s.slots, Expired(now), fd);
    assert s.slots[..|s.slots|] == s.slots;
    forall i | 0 <= i < |s.slots| && s.slots[i].fd == fd > 0
      ensures SlotOk(s, s.slots[i])
    {
    }
  }

  // Cleaning up keeps open exactly the leased sockets and those given back recently enough.
  lemma CleanUpExact(run: seq<Action>, now: int, fd: int)
    requires CanRun(Init(), run)
    ensures var s, t := Reached(run), Next(Reached(run), CleanUp(now));
            fd in t.peers <==>
              (fd in s.peers && (fd in s.leases || (fd in s.idleSince && now - s.idleSince[fd] < 30)))
  {
    InitInv();
    RunInv(Init(), run);
    CleanUpSocket(Reached(run), now, fd);
  }

  lemma GiveUpSocket(s: State, fd: int, now: int)
    requires Inv(s) && fd in s.leases
    ensures var t := Next(s, GiveUp(fd, now));
            && fd !in t.leases && t.idleSince[fd] == now
            && (fd !in t.peers <==> forall i :: 0 <= i < |s.slots| ==> IsLive(s.slots[i]) && s.slots[i].fd != fd)
  {
    assert LeaseOk(s, fd);
    var k, v := First(s.slots, HasFd(fd)), First(s.slots, IsVacant);
    assert SetOf([]) == {} && SetOf([fd]) == {fd};
    assert k == |s.slots| && v == |s.slots| ==> forall i :: 0 <= i < |s.slots| ==> !IsVacant(s.slots[i]);
  }

  // A socket given back is idle from then on, or closed; it is closed exactly when every slot
  // holds some other socket.
  lemma GiveUpExact(run: seq<Action>, fd: int, now: int)
    requires CanRun(Init(), run) && fd in Reached(run).leases
    ensures var s, t := Reached(run), Next(Reached(run), GiveUp(fd, now));
            && fd !in t.leases && t.idleSince[fd] == now
            && (fd !in t.peers <==> forall i :: 0 <= i < |s.slots| ==> IsLive(s.slots[i]) && s.slots[i].fd != fd)
  {
    InitInv();
    RunInv(Init(), run);
    GiveUpSocket(Reached(run), fd, now);
  }

  lemma InitInv()
    ensures Inv(Init())
  {
  }

  // No socket sits in two slots; a slot is idle exactly when its socket is open and unleased;
  // an open socket is leased or in a slot; and connects = open + closed, number by number.
  lemma SocketsConserved(run: seq<Action>, fd: int)
    requires CanRun(Init(), run)
    ensures var s := Reached(run);
            && s.made[fd] == s.closed[fd] + (if fd in s.peers then 1 else 0)
            && (fd in s.peers ==> fd in s.leases || InSlot(s.slots, fd))
            && (fd in s.leases ==> fd in s.peers)
            && (forall i :: 0 <= i < |s.slots| && s.slots[i].fd == fd > 0 ==>
                  (s.slots[i].inUse <==> fd in s.leases || fd !in s.peers))
            && (forall i, j :: 0 <= i < j < |s.slots| && s.slots[i].fd == fd > 0 ==> s.slots[j].fd != fd)
  {
    InitInv();
    RunInv(Init(), run);
    var s := Reached(run);
    assert Balanced(s, fd) && Accounted(s, fd) && LeaseOk(s, fd);
    if fd > 0 && InSlot(s.slots, fd) {
      var i :| 0 <= i < |s.slots| && s.slots[i].fd == fd;
      assert SlotOk(s, s.slots[i]);
    }
    forall i | 0 <= i < |s.slots| && s.slots[i].fd == fd > 0
      ensures s.slots[i].inUse <==> fd in s.leases || fd !in s.peers
    {
      assert SlotOk(s, s.slots[i]);
    }
  }

  ghost predicate NoneDead(s: State) {
    forall i :: 0 <= i < |s.slots| ==> !Dead(s, s.slots[i])
  }

  lemma UnleasedIsInSlot(s: State, fd: int)
    requires Inv(s) && s.leases == map[]
    ensures var left := multiset(Fds(s.slots, IsLive))[fd];
            && left == (if fd > 0 && InSlot(s.slots, fd) then 1 else 0)
            && (fd in s.peers ==> left == 1)
  {
    assert Accounted(s, fd);
    FdsOnce(s.slots, IsLive, fd);
    FdsMembers(s.slots, IsLive, fd);
    if fd > 0 && InSlot(s.slots, fd) {
      var i :| 0 <= i < |s.slots| && s.slots[i].fd == fd;
      assert IsLive(s.slots[i]);
    }
  }

  lemma NoneDeadLeft(s: State, fd: int)
    requires Inv(s) && s.leases == map[] && NoneDead(s)
    ensures s.made[fd] == s.closed[fd] + multiset(Fds(s.slots, IsLive))[fd]
  {
    assert Balanced(s, fd);
    UnleasedIsInSlot(s, fd);
    if fd > 0 && InSlot(s.slots, fd) {
      var i :| 0 <= i < |s.slots| && s.slots[i].fd == fd;
      assert !Dead(s, s.slots[i]);
    }
  }

  // Once no socket is leased, destroying the pool closes every open socket exactly once, and
  // nothing else exactly when no slot is dead.
  lemma DestroyBalances(run: seq<Action>)
    requires CanRun(Init(), run) && Reached(run).leases == map[]
    ensures var s, left := Reached(run), multiset(Fds(Reached(run).slots, IsLive));
            && (forall fd :: fd in s.peers ==> left[fd] == 1)
            && (s.made == s.closed + left <==> NoneDead(s))
  {
    InitInv();
    RunInv(Init(), run);
    var s := Reached(run);
    var left := multiset(Fds(s.slots, IsLive));
    forall fd | fd in s.peers
      ensures left[fd] == 1
    {
      UnleasedIsInSlot(s, fd);
    }
    if i :| 0 <= i < |s.slots| && Dead(s, s.slots[i]) {
      var fd := s.slots[i].fd;
      UnleasedIsInSlot(s, fd);
      assert Balanced(s, fd);
      assert s.made[fd] < (s.closed + left)[fd];
    } else {
      forall fd
        ensures s.made[fd] == (s.closed + left)[fd]
      {
        NoneDeadLeft(s, fd);
      }
    }
  }
}
