/**
 * The worker/producer/shutdown protocol of src/components/thread_pool.c as a transition system,
 * with the accept loop and the teardown of src/components/proxy_server.c as its main thread.
 * A step is one critical section or one blocking call; any number of workers interleave freely.
 */
module ThreadPool {
  const MAX_CLIENTS: nat := 200

  datatype Worker =
    | Ready             // about to lock the queue mutex
    | Asleep            // in pthread_cond_wait, not signalled
    | Woken             // signalled or woken spuriously, about to lock again
    | Claimed(fd: int)  // holds a task, about to wait for the semaphore
    | Inside(fd: int)   // in handle_client_request, the client socket still open
    | Served            // the handler has closed the socket, about to post the semaphore
    | Exited

  datatype Main =
    | Accepting
    | Holding(fd: int)    // accepted, about to add the task
    | Refused(fd: int)    // thread_pool_add_task failed
    | Joining(next: nat)  // shutdown flagged and broadcast, joining worker `next`
    | Draining
    | PoolGone            // thread_pool_destroy has returned
    | CacheFreed
    | ConnectionsFreed

  datatype State = State(
    workers: seq<Worker>,
    queue: seq<int>,
    shutdown: bool,
    permits: int,
    main: Main,
    accepted: multiset<int>,  // every accept
    closed: multiset<int>,  // every socket_close
    added: seq<int>,        // sockets in the order they were queued
    taken: seq<int>,        // sockets in the order workers dequeued them
    drained: seq<int>)      // sockets in the order destroy closed them

  datatype Action =
    | Inspect(w: nat)      // lock, look at the flag and the queue
    | WakeSpuriously(w: nat)
    | Enter(w: nat)        // sem_wait returns
    | CloseSocket(w: nat)  // the handler's single close
    | Leave(w: nat)        // sem_post, back to the loop head
    | Accept(fd: int)
    | Enqueue(signalled: nat)
    | Refuse
    | CloseRefused
    | Shutdown             // set the flag and broadcast
    | Join
    | JoinedAll
    | DrainOne
    | DrainedAll
    | FreeCache
    | FreeConnections

  predicate Looking(w: Worker) { w.Ready? || w.Woken? }
  predicate InSection(w: Worker) { w.Inside? || w.Served? }

  function Count(ws: seq<Worker>, p: Worker -> bool): nat {
    if ws == [] then 0 else Count(ws[..|ws| - 1], p) + if p(ws[|ws| - 1]) then 1 else 0
  }

  predicate Holds(w: Worker, fd: int) {
    match w
    case Claimed(held) => held == fd
    case Inside(held) => held == fd
    case _ => false
  }

  function Holder(fd: int): Worker -> bool {
    w => Holds(w, fd)
  }

  predicate MainHolds(main: Main, fd: int) {
    match main
    case Holding(held) => held == fd
    case Refused(held) => held == fd
    case _ => false
  }

  // The number of places socket fd is in: queue entries, workers, the accept loop.
  function InFlight(s: State, fd: int): int {
    multiset(s.queue)[fd] + Count(s.workers, Holder(fd)) + if MainHolds(s.main, fd) then 1 else 0
  }

  predicate AnyAsleep(ws: seq<Worker>) {
    exists i :: 0 <= i < |ws| && ws[i].Asleep?
  }

  function Broadcast(ws: seq<Worker>): (awake: seq<Worker>)
    ensures |awake| == |ws|
    ensures forall i :: 0 <= i < |ws| ==> awake[i] == if ws[i].Asleep? then Woken else ws[i]
  {
    if ws == [] then []
    else
      var n := |ws| - 1;
      Broadcast(ws[..n]) + [if ws[n].Asleep? then Woken else ws[n]]
  }

  // Before the first accept, with n workers; the proxy starts four.
  function Init(n: nat): State {
    State(seq(n, _ => Ready), [], false, MAX_CLIENTS, Accepting,
          multiset{}, multiset{}, [], [], [])
  }

  predicate Enabled(s: State, a: Action) {
    match a
    case Inspect(w) => w < |s.workers| && Looking(s.workers[w])
    case WakeSpuriously(w) => w < |s.workers| && s.workers[w].Asleep?
    case Enter(w) => w < |s.workers| && s.workers[w].Claimed? && s.permits > 0
    case CloseSocket(w) => w < |s.workers| && s.workers[w].Inside?
    case Leave(w) => w < |s.workers| && s.workers[w].Served?
    // The system hands out a number that is not open.
    case Accept(fd) => s.main.Accepting? && fd >= 0 && InFlight(s, fd) == 0
    // pthread_cond_signal wakes some sleeper if there is one.
    case Enqueue(w) =>
      s.main.Holding? && s.main.fd > 0
      && (AnyAsleep(s.workers) ==> w < |s.workers| && s.workers[w].Asleep?)
    case Refuse => s.main.Holding?  // the number is 0, or the task cannot be allocated
    case CloseRefused => s.main.Refused?
    case Shutdown => s.main.Accepting?
    case Join => s.main.Joining? && s.main.next < |s.workers| && s.workers[s.main.next].Exited?
    case JoinedAll => s.main.Joining? && s.main.next == |s.workers|
    case DrainOne => s.main.Draining? && s.queue != []
    case DrainedAll => s.main.Draining? && s.queue == []
    case FreeCache => s.main.PoolGone?
    case FreeConnections => s.main.CacheFreed?
  }

  function InspectQueue(s: State, w: nat): State
    requires w < |s.workers|
  {
    if s.shutdown then s.(workers := s.workers[w := Exited])
    else if s.queue == [] then s.(workers := s.workers[w := Asleep])
    else s.(workers := s.workers[w := Claimed(s.queue[0])],
            queue := s.queue[1..], taken := s.taken + [s.queue[0]])
  }

  function Next(s: State, a: Action): State
    requires Enabled(s, a)
  {
    match a
    case Inspect(w) => InspectQueue(s, w)
    case WakeSpuriously(w) => s.(workers := s.workers[w := Woken])
    case Enter(w) => s.(workers := s.workers[w := Inside(s.workers[w].fd)], permits := s.permits - 1)
    case CloseSocket(w) =>
      s.(workers := s.workers[w := Served], closed := s.closed + multiset{s.workers[w].fd})
    case Leave(w) => s.(workers := s.workers[w := Ready], permits := s.permits + 1)
    case Accept(fd) => s.(main := Holding(fd), accepted := s.accepted + multiset{fd})
    case Enqueue(w) =>
      s.(queue := s.queue + [s.main.fd], added := s.added + [s.main.fd], main := Accepting,
         workers := if AnyAsleep(s.workers) then s.workers[w := Woken] else s.workers)
    case Refuse => s.(main := Refused(s.main.fd))
    case CloseRefused => s.(main := Accepting, closed := s.closed + multiset{s.main.fd})
    case Shutdown => s.(shutdown := true, main := Joining(0), workers := Broadcast(s.workers))
    case Join => s.(main := Joining(s.main.next + 1))
    case JoinedAll => s.(main := Draining)
    case DrainOne =>
      s.(queue := s.queue[1..], drained := s.drained + [s.queue[0]],
         closed := s.closed + multiset{s.queue[0]})
    case DrainedAll => s.(main := PoolGone)
    case FreeCache => s.(main := CacheFreed)
    case FreeConnections => s.(main := ConnectionsFreed)
  }

  // `run` is a schedule the system can follow from s.
  predicate CanRun(s: State, run: seq<Action>)
    decreases |run|
  {
    run == [] || (Enabled(s, run[0]) && CanRun(Next(s, run[0]), run[1..]))
  }

  function After(s: State, run: seq<Action>): State
    requires CanRun(s, run)
    decreases |run|
  {
    if run == [] then s else After(Next(s, run[0]), run[1..])
  }

  // ---------------------------------------------------------------- counting workers

  lemma {:induction false} CountUpdate(ws: seq<Worker>, i: nat, v: Worker, p: Worker -> bool)
    requires i < |ws|
    ensures Count(ws[i := v], p)
         == Count(ws, p) - (if p(ws[i]) then 1 else 0) + (if p(v) then 1 else 0)
  {
    var n := |ws| - 1;
    if i < n {
      CountUpdate(ws[..n], i, v, p);
      assert ws[i := v][..n] == ws[..n][i := v];
    } else {
      assert ws[i := v][..n] == ws[..n];
    }
  }

  lemma {:induction false} BroadcastKeeps(ws: seq<Worker>)
    ensures forall p: Worker -> bool :: p(Asleep) == p(Woken) ==> Count(Broadcast(ws), p) == Count(ws, p)
  {
    if ws != [] {
      var n := |ws| - 1;
      BroadcastKeeps(ws[..n]);
      assert Broadcast(ws)[..n] == Broadcast(ws[..n]);
    }
  }

  lemma {:induction false} CountNone(ws: seq<Worker>, p: Worker -> bool)
    requires forall i :: 0 <= i < |ws| ==> !p(ws[i])
    ensures Count(ws, p) == 0
  {
    if ws != [] {
      CountNone(ws[..|ws| - 1], p);
    }
  }

  lemma {:induction false} CountMissesOne(ws: seq<Worker>, p: Worker -> bool, i: nat)
    requires i < |ws| && !p(ws[i])
    ensures Count(ws, p) < |ws|
  {
    var n := |ws| - 1;
    if i < n {
      CountMissesOne(ws[..n], p, i);
    } else {
      CountAtMost(ws[..n], p);
    }
  }

  lemma {:induction false} CountAtMost(ws: seq<Worker>, p: Worker -> bool)
    ensures Count(ws, p) <= |ws|
  {
    if ws != [] {
      CountAtMost(ws[..|ws| - 1], p);
    }
  }

  // ---------------------------------------------------------------- the invariants

  // Permits and workers inside the handler add up to MAX_CLIENTS.
  predicate SemaphoreInv(s: State) {
    s.permits >= 0 && s.permits + Count(s.workers, InSection) == MAX_CLIENTS
  }

  // While some worker sleeps unsignalled, every queued task has a worker about to look at the
  // queue; after shutdown nobody sleeps.
  predicate WakeupInv(s: State) {
    AnyAsleep(s.workers) ==> !s.shutdown && |s.queue| <= Count(s.workers, Looking)
  }

  // Each accepted socket is closed or in exactly one place.
  ghost predicate SocketInv(s: State) {
    && (forall fd :: s.accepted[fd] == s.closed[fd] + InFlight(s, fd))
    && (forall fd :: InFlight(s, fd) <= 1)
  }

  predicate FifoInv(s: State) {
    s.added == s.taken + s.drained + s.queue
  }

  predicate AllExited(ws: seq<Worker>) {
    forall i :: 0 <= i < |ws| ==> ws[i].Exited?
  }

  predicate PhaseInv(s: State) {
    match s.main
    case Joining(next) =>
      s.shutdown && next <= |s.workers| && s.drained == []
      && forall i :: 0 <= i < next ==> s.workers[i].Exited?
    case Draining => s.shutdown && AllExited(s.workers)
    case PoolGone => s.shutdown && AllExited(s.workers) && s.queue == []
    case CacheFreed => s.shutdown && AllExited(s.workers) && s.queue == []
    case ConnectionsFreed => s.shutdown && AllExited(s.workers) && s.queue == []
    case _ => !s.shutdown && s.drained == [] && forall i :: 0 <= i < |s.workers| ==> !s.workers[i].Exited?
  }

  ghost predicate Inv(s: State) {
    SemaphoreInv(s) && WakeupInv(s) && SocketInv(s) && FifoInv(s) && PhaseInv(s)
  }

  lemma SemaphoreStep(s: State, a: Action)
    requires SemaphoreInv(s) && Enabled(s, a)
    ensures SemaphoreInv(Next(s, a))
  {
    var t := Next(s, a);
    match a
    case Inspect(w) => CountUpdate(s.workers, w, t.workers[w], InSection);
    case WakeSpuriously(w) => CountUpdate(s.workers, w, Woken, InSection);
    case Enter(w) => CountUpdate(s.workers, w, t.workers[w], InSection);
    case CloseSocket(w) => CountUpdate(s.workers, w, Served, InSection);
    case Leave(w) => CountUpdate(s.workers, w, Ready, InSection);
    case Enqueue(w) =>
      if AnyAsleep(s.workers) {
        CountUpdate(s.workers, w, Woken, InSection);
      }
    case Shutdown => BroadcastKeeps(s.workers);
    case _ =>
  }

  lemma StillAsleep(ws: seq<Worker>, w: nat, v: Worker)
    requires w < |ws| && !v.Asleep? && AnyAsleep(ws[w := v])
    ensures AnyAsleep(ws)
  {
    var i :| 0 <= i < |ws| && ws[w := v][i].Asleep?;
    assert ws[i].Asleep?;
  }

  lemma WakeupStep(s: State, a: Action)
    requires WakeupInv(s) && PhaseInv(s) && Enabled(s, a)
    ensures WakeupInv(Next(s, a))
  {
    var t := Next(s, a);
    if a.Shutdown? {
      assert forall i :: 0 <= i < |t.workers| ==> !t.workers[i].Asleep?;
    } else if AnyAsleep(t.workers) {
      match a
      case Inspect(w) =>
        CountUpdate(s.workers, w, t.workers[w], Looking);
        if s.shutdown || s.queue != [] {
          StillAsleep(s.workers, w, t.workers[w]);
        }
      case WakeSpuriously(w) => CountUpdate(s.workers, w, Woken, Looking);
      case Enter(w) =>
        CountUpdate(s.workers, w, t.workers[w], Looking);
        StillAsleep(s.workers, w, t.workers[w]);
      case CloseSocket(w) =>
        CountUpdate(s.workers, w, Served, Looking);
        StillAsleep(s.workers, w, Served);
      case Leave(w) =>
        CountUpdate(s.workers, w, Ready, Looking);
        StillAsleep(s.workers, w, Ready);
      case Enqueue(w) =>
        if AnyAsleep(s.workers) {
          CountUpdate(s.workers, w, Woken, Looking);
        }
      case _ =>
    }
  }

  lemma HeadAndRest(queue: seq<int>, fd: int)
    requires queue != []
    ensures multiset(queue)[fd] == multiset(queue[1..])[fd] + if queue[0] == fd then 1 else 0
  {
    assert queue == [queue[0]] + queue[1..];
  }

  // A worker that takes a task only moves its socket.
  lemma InspectSocketStep(s: State, w: nat, fd: int)
    requires w < |s.workers| && Looking(s.workers[w])
    ensures InFlight(InspectQueue(s, w), fd) == InFlight(s, fd)
  {
    CountUpdate(s.workers, w, InspectQueue(s, w).workers[w], Holder(fd));
    if s.queue != [] {
      HeadAndRest(s.queue, fd);
    }
  }

  lemma HandlerSocketStep(s: State, w: nat, v: Worker, fd: int)
    requires w < |s.workers|
    ensures InFlight(s.(workers := s.workers[w := v]), fd)
         == InFlight(s, fd) - (if Holds(s.workers[w], fd) then 1 else 0) + (if Holds(v, fd) then 1 else 0)
  {
    CountUpdate(s.workers, w, v, Holder(fd));
  }

  lemma WorkerSocketStep(s: State, a: Action, w: nat, fd: int)
    requires Enabled(s, a) && w < |s.workers|
    requires a == Inspect(w) || a == WakeSpuriously(w) || a == Enter(w) || a == CloseSocket(w) || a == Leave(w)
    ensures var t := Next(s, a);
            t.accepted[fd] - t.closed[fd] - InFlight(t, fd) == s.accepted[fd] - s.closed[fd] - InFlight(s, fd)
            && InFlight(t, fd) <= InFlight(s, fd)
  {
    if a.Inspect? {
      InspectSocketStep(s, w, fd);
    } else {
      HandlerSocketStep(s, w, Next(s, a).workers[w], fd);
    }
  }

  lemma MainSocketStep(s: State, a: Action, fd: int)
    requires Enabled(s, a)
    requires a.Accept? || a.Enqueue? || a.Refuse? || a.CloseRefused? || a.Shutdown? || a.DrainOne?
    ensures var t := Next(s, a);
            t.accepted[fd] - t.closed[fd] - InFlight(t, fd) == s.accepted[fd] - s.closed[fd] - InFlight(s, fd)
            && (InFlight(t, fd) <= InFlight(s, fd) || InFlight(t, fd) == 1)
  {
    match a
    case Enqueue(w) =>
      if AnyAsleep(s.workers) {
        CountUpdate(s.workers, w, Woken, Holder(fd));
      }
    case Shutdown => BroadcastKeeps(s.workers);
    case DrainOne => HeadAndRest(s.queue, fd);
    case _ =>
  }

  lemma SocketStep(s: State, a: Action)
    requires SocketInv(s) && Enabled(s, a)
    ensures SocketInv(Next(s, a))
  {
    var t := Next(s, a);
    forall fd
      ensures t.accepted[fd] == t.closed[fd] + InFlight(t, fd) && InFlight(t, fd) <= 1
    {
      if a.Inspect? || a.WakeSpuriously? || a.Enter? || a.CloseSocket? || a.Leave? {
        WorkerSocketStep(s, a, a.w, fd);
      } else if a.Accept? || a.Enqueue? || a.Refuse? || a.CloseRefused? || a.Shutdown? || a.DrainOne? {
        MainSocketStep(s, a, fd);
      }
    }
  }

  lemma FifoStep(s: State, a: Action)
    requires FifoInv(s) && PhaseInv(s) && Enabled(s, a)
    ensures FifoInv(Next(s, a))
  {
    if a.Inspect? || a.DrainOne? {
      if s.queue != [] {
        assert s.queue == [s.queue[0]] + s.queue[1..];
      }
    }
  }

  lemma WorkerPhaseStep(s: State, w: nat, v: Worker, queue: seq<int>)
    requires PhaseInv(s) && w < |s.workers| && !s.workers[w].Exited?
    requires v.Exited? ==> s.shutdown
    requires s.queue == [] ==> queue == []
    ensures PhaseInv(s.(workers := s.workers[w := v], queue := queue))
  {
  }

  lemma PhaseStep(s: State, a: Action)
    requires PhaseInv(s) && Enabled(s, a)
    ensures PhaseInv(Next(s, a))
  {
    var t := Next(s, a);
    match a
    case Inspect(w) => WorkerPhaseStep(s, w, t.workers[w], t.queue);
    case WakeSpuriously(w) => WorkerPhaseStep(s, w, Woken, s.queue);
    case Enter(w) => WorkerPhaseStep(s, w, t.workers[w], s.queue);
    case CloseSocket(w) => WorkerPhaseStep(s, w, Served, s.queue);
    case Leave(w) => WorkerPhaseStep(s, w, Ready, s.queue);
    case _ =>
  }

  lemma InvStep(s: State, a: Action)
    requires Inv(s) && Enabled(s, a)
    ensures Inv(Next(s, a))
  {
    SemaphoreStep(s, a);
    WakeupStep(s, a);
    SocketStep(s, a);
    FifoStep(s, a);
    PhaseStep(s, a);
  }

  // The system starts with n workers about to look and the accept loop waiting.
  lemma InitInv(n: nat)
    ensures Inv(Init(n))
    ensures |Init(n).workers| == n && forall w: nat :: w < n ==> Enabled(Init(n), Inspect(w))
    ensures Init(n).main == Accepting && Init(n).accepted == multiset{}
  {
    CountNone(Init(n).workers, InSection);
    forall fd
      ensures InFlight(Init(n), fd) == 0
    {
      CountNone(Init(n).workers, Holder(fd));
    }
  }

  // Over every interleaving, from any state that satisfies them, the invariants hold.
  lemma {:induction false} RunInv(s: State, run: seq<Action>)
    requires Inv(s) && CanRun(s, run)
    ensures Inv(After(s, run))
    decreases |run|
  {
    if run != [] {
      InvStep(s, run[0]);
      RunInv(Next(s, run[0]), run[1..]);
    }
  }

  // The state a system of n workers is in after `run`.
  function Reached(n: nat, run: seq<Action>): State
    requires CanRun(Init(n), run)
  {
    After(Init(n), run)
  }

  lemma ReachedInv(n: nat, run: seq<Action>)
    requires CanRun(Init(n), run)
    ensures Inv(Reached(n, run))
    ensures Count(Reached(n, run).workers, InSection) <= 200
  {
    InitInv(n);
    RunInv(Init(n), run);
  }

  // No wakeup is lost: a sleeping worker means every queued task has a worker about to look.
  lemma NoLostWakeup(n: nat, run: seq<Action>)
    requires CanRun(Init(n), run) && AnyAsleep(Reached(n, run).workers)
    ensures !Reached(n, run).shutdown
    ensures |Reached(n, run).queue| <= Count(Reached(n, run).workers, Looking)
  {
    ReachedInv(n, run);
  }

  // ---------------------------------------------------------------- who owns a socket

  lemma {:induction false} CountOne(ws: seq<Worker>, p: Worker -> bool, i: nat)
    requires i < |ws| && p(ws[i])
    ensures Count(ws, p) >= 1
  {
    if i < |ws| - 1 {
      CountOne(ws[..|ws| - 1], p, i);
    }
  }

  lemma {:induction false} CountTwo(ws: seq<Worker>, p: Worker -> bool, i: nat, j: nat)
    requires i < j < |ws| && p(ws[i]) && p(ws[j])
    ensures Count(ws, p) >= 2
  {
    var n := |ws| - 1;
    if j < n {
      CountTwo(ws[..n], p, i, j);
    } else {
      CountOne(ws[..n], p, i);
    }
  }

  // No socket is with two workers, or with a worker and in the queue, or twice in the queue,
  // or with the accept loop and anywhere else.
  lemma OneOwner(n: nat, run: seq<Action>, fd: int)
    requires CanRun(Init(n), run)
    ensures var s := Reached(n, run);
            && (forall i, j :: 0 <= i < j < |s.workers| && Holds(s.workers[i], fd) ==> !Holds(s.workers[j], fd))
            && (forall i :: 0 <= i < |s.workers| && Holds(s.workers[i], fd) ==> fd !in s.queue)
            && multiset(s.queue)[fd] <= 1
            && (MainHolds(s.main, fd) ==> fd !in s.queue)
            && (MainHolds(s.main, fd) ==> forall i :: 0 <= i < |s.workers| ==> !Holds(s.workers[i], fd))
  {
    ReachedInv(n, run);
    var s := Reached(n, run);
    assert InFlight(s, fd) <= 1;
    forall i | 0 <= i < |s.workers| && Holds(s.workers[i], fd)
      ensures Count(s.workers, Holder(fd)) >= 1
    {
      CountOne(s.workers, Holder(fd), i);
    }
    forall i, j | 0 <= i < j < |s.workers| && Holds(s.workers[i], fd) && Holds(s.workers[j], fd)
      ensures false
    {
      CountTwo(s.workers, Holder(fd), i, j);
    }
    assert fd in s.queue ==> multiset(s.queue)[fd] >= 1;
  }

  // ---------------------------------------------------------------- progress

  function Rank(w: Worker): nat {
    match w
    case Claimed(_) => 4
    case Inside(_) => 3
    case Served => 2
    case Ready => 1
    case Woken => 1
    case Asleep => 0
    case Exited => 0
  }

  function RankSum(ws: seq<Worker>): nat {
    if ws == [] then 0 else RankSum(ws[..|ws| - 1]) + Rank(ws[|ws| - 1])
  }

  lemma {:induction false} RankUpdate(ws: seq<Worker>, i: nat, v: Worker)
    requires i < |ws|
    ensures RankSum(ws[i := v]) == RankSum(ws) - Rank(ws[i]) + Rank(v)
  {
    var n := |ws| - 1;
    if i < n {
      RankUpdate(ws[..n], i, v);
      assert ws[i := v][..n] == ws[..n][i := v];
    } else {
      assert ws[i := v][..n] == ws[..n];
    }
  }

  // With at most MAX_CLIENTS workers, sem_wait never blocks.
  lemma SemaphoreNeverBlocks(s: State, w: nat)
    requires Inv(s) && |s.workers| <= MAX_CLIENTS
    requires w < |s.workers| && s.workers[w].Claimed?
    ensures Enabled(s, Enter(w))
  {
    CountMissesOne(s.workers, InSection, w);
  }

  predicate IsWork(a: Action) {
    a.Inspect? || a.Enter? || a.CloseSocket? || a.Leave?
  }

  // What worker w does next of its own accord.
  function WorkOf(s: State, w: nat): Action
    requires w < |s.workers|
  {
    match s.workers[w]
    case Claimed(_) => Enter(w)
    case Inside(_) => CloseSocket(w)
    case Served => Leave(w)
    case _ => Inspect(w)
  }

  lemma AwakeCanWork(s: State, w: nat)
    requires Inv(s) && |s.workers| <= MAX_CLIENTS
    requires w < |s.workers| && !s.workers[w].Asleep? && !s.workers[w].Exited?
    ensures Enabled(s, WorkOf(s, w)) && IsWork(WorkOf(s, w))
  {
    if s.workers[w].Claimed? {
      SemaphoreNeverBlocks(s, w);
    }
  }

  function WorkLeft(s: State): nat {
    RankSum(s.workers) + 4 * |s.queue|
  }

  lemma WorkFalls(s: State, a: Action)
    requires Enabled(s, a) && IsWork(a)
    ensures WorkLeft(Next(s, a)) < WorkLeft(s)
    ensures Next(s, a).shutdown == s.shutdown && Next(s, a).main == s.main
    ensures |Next(s, a).workers| == |s.workers|
    ensures s.shutdown ==> Next(s, a).queue == s.queue
  {
    RankUpdate(s.workers, a.w, Next(s, a).workers[a.w]);
  }

  predicate OnlyWork(run: seq<Action>) {
    forall i :: 0 <= i < |run| ==> IsWork(run[i])
  }

  lemma {:induction false} WorkRunBounded(s: State, run: seq<Action>)
    requires Inv(s) && CanRun(s, run) && OnlyWork(run)
    ensures |run| + WorkLeft(After(s, run)) <= WorkLeft(s)
    ensures After(s, run).shutdown == s.shutdown && After(s, run).main == s.main
    ensures |After(s, run).workers| == |s.workers|
    decreases |run|
  {
    if run != [] {
      WorkFalls(s, run[0]);
      InvStep(s, run[0]);
      WorkRunBounded(Next(s, run[0]), run[1..]);
    }
  }

  // Before shutdown, whatever the interleaving, the workers alone empty the queue: they run
  // out of steps within WorkLeft, and then nothing is queued and every socket but the one the
  // accept loop may hold is closed.
  lemma WorkersEmptyTheQueue(s: State, run: seq<Action>)
    requires Inv(s) && !s.shutdown && s.main.Accepting? && 0 < |s.workers| <= MAX_CLIENTS
    requires CanRun(s, run) && OnlyWork(run)
    requires forall a :: IsWork(a) ==> !Enabled(After(s, run), a)
    ensures |run| <= WorkLeft(s)
    ensures After(s, run).queue == []
    ensures After(s, run).accepted == After(s, run).closed
  {
    var t := After(s, run);
    RunInv(s, run);
    WorkRunBounded(s, run);
    forall w | 0 <= w < |t.workers|
      ensures t.workers[w].Asleep?
    {
      if !t.workers[w].Asleep? {
        AwakeCanWork(t, w);
        assert false;
      }
    }
    assert t.workers[0].Asleep?;
    CountNone(t.workers, Looking);
    NothingHeld(t);
  }

  lemma NothingHeld(t: State)
    requires SocketInv(t) && t.queue == [] && (forall fd :: !MainHolds(t.main, fd))
    requires forall w :: 0 <= w < |t.workers| ==> t.workers[w].Asleep? || t.workers[w].Exited?
    ensures t.accepted == t.closed
  {
    forall fd
      ensures t.accepted[fd] == t.closed[fd]
    {
      CountNone(t.workers, Holder(fd));
    }
    assert forall fd :: t.accepted[fd] == t.closed[fd];
  }

  // ---------------------------------------------------------------- every socket can be served

  // Between two turns the accept loop takes any number whose accepts have all been closed, and
  // the teardown may begin; a sleeper may wake on its own, and an allocation may fail.
  lemma NothingElseBlocks(n: nat, run: seq<Action>, fd: int, w: nat)
    requires CanRun(Init(n), run)
    ensures var s := Reached(n, run);
            && (s.main == Accepting && fd >= 0 && s.accepted[fd] == s.closed[fd] ==>
                 Enabled(s, Accept(fd)) && Next(s, Accept(fd)).main == Holding(fd))
            && (s.main == Accepting ==> Enabled(s, Shutdown))
            && (w < |s.workers| && s.workers[w] == Asleep ==>
                 Enabled(s, WakeSpuriously(w)) && Next(s, WakeSpuriously(w)).workers == s.workers[w := Woken])
            && (s.main == Holding(fd) ==> Enabled(s, Refuse) && Next(s, Refuse).main == Refused(fd))
            && (s.main == Refused(fd) ==>
                 Enabled(s, CloseRefused) && Next(s, CloseRefused).closed == s.closed + multiset{fd})
  {
    ReachedInv(n, run);
    assert Reached(n, run).accepted[fd] == Reached(n, run).closed[fd] + InFlight(Reached(n, run), fd);
  }

  // A socket with a positive number can always be queued, behind what is queued already, and
  // wakes one sleeper if there is one.
  lemma SocketCanBeQueued(s: State) returns (w: nat)
    requires s.main.Holding? && s.main.fd > 0
    ensures Enabled(s, Enqueue(w))
    ensures var t := Next(s, Enqueue(w));
            && t.queue == s.queue + [s.main.fd] && t.main == Accepting
            && t.workers == if AnyAsleep(s.workers) then s.workers[w := Woken] else s.workers
    ensures AnyAsleep(s.workers) ==> w < |s.workers| && s.workers[w] == Asleep
  {
    w := 0;
    if i :| 0 <= i < |s.workers| && s.workers[i].Asleep? {
      w := i;
    }
  }

  ghost predicate WithWorker(s: State, v: Worker) {
    exists w :: 0 <= w < |s.workers| && s.workers[w] == v
  }

  // Queued, or taken by a worker that has yet to enter the handler.
  ghost predicate Waiting(s: State, fd: int) {
    fd in s.queue || WithWorker(s, Claimed(fd))
  }

  lemma {:induction false} CountSome(ws: seq<Worker>, p: Worker -> bool) returns (w: nat)
    requires Count(ws, p) > 0
    ensures w < |ws| && p(ws[w])
  {
    w := |ws| - 1;
    if !p(ws[w]) {
      w := CountSome(ws[..w], p);
    }
  }

  lemma SomeWorkerMoves(s: State) returns (w: nat)
    requires Inv(s) && !s.shutdown && 0 < |s.workers| <= MAX_CLIENTS && s.queue != []
    ensures w < |s.workers| && Enabled(s, WorkOf(s, w)) && IsWork(WorkOf(s, w))
  {
    w := 0;
    if AnyAsleep(s.workers) {
      w := CountSome(s.workers, Looking);
    }
    AwakeCanWork(s, w);
  }

  lemma WaitingStep(s: State, w: nat, fd: int)
    requires !s.shutdown && w < |s.workers| && Enabled(s, WorkOf(s, w)) && fd in s.queue
    ensures Waiting(Next(s, WorkOf(s, w)), fd)
  {
    var t := Next(s, WorkOf(s, w));
    if WorkOf(s, w).Inspect? && s.queue[0] == fd {
      assert t.workers[w] == Claimed(fd);
    }
  }

  // From any state before shutdown the workers alone can bring a waiting socket into the
  // handler.
  lemma {:induction false} WaitingIsServed(s: State, fd: int) returns (run: seq<Action>)
    requires Inv(s) && !s.shutdown && 0 < |s.workers| <= MAX_CLIENTS && Waiting(s, fd)
    ensures CanRun(s, run) && OnlyWork(run) && WithWorker(After(s, run), Inside(fd))
    decreases WorkLeft(s)
  {
    var a, rest;
    if w :| 0 <= w < |s.workers| && s.workers[w] == Claimed(fd) {
      SemaphoreNeverBlocks(s, w);
      a, rest := Enter(w), [];
      assert Next(s, a).workers[w] == Inside(fd);
      assert WithWorker(After(Next(s, a), rest), Inside(fd));
    } else {
      var w := SomeWorkerMoves(s);
      a := WorkOf(s, w);
      WaitingStep(s, w, fd);
      WorkFalls(s, a);
      InvStep(s, a);
      rest := WaitingIsServed(Next(s, a), fd);
    }
    run := [a] + rest;
    assert run[1..] == rest;
    assert After(s, run) == After(Next(s, a), rest);
  }

  lemma {:induction false} WorkersStay(s: State, run: seq<Action>)
    requires CanRun(s, run)
    ensures |After(s, run).workers| == |s.workers|
    decreases |run|
  {
    if run != [] {
      WorkersStay(Next(s, run[0]), run[1..]);
    }
  }

  // After any run an accepted socket with a positive number can be queued, and then served by
  // the workers alone.
  lemma AcceptedCanBeServed(n: nat, run: seq<Action>) returns (w: nat, more: seq<Action>)
    requires 0 < n <= 200 && CanRun(Init(n), run)
    requires Reached(n, run).main.Holding? && Reached(n, run).main.fd > 0
    ensures var s := Reached(n, run);
            && Enabled(s, Enqueue(w)) && Next(s, Enqueue(w)).queue == s.queue + [s.main.fd]
            && CanRun(Next(s, Enqueue(w)), more) && OnlyWork(more)
            && WithWorker(After(Next(s, Enqueue(w)), more), Inside(s.main.fd))
  {
    var s := Reached(n, run);
    ReachedInv(n, run);
    WorkersStay(Init(n), run);
    w := SocketCanBeQueued(s);
    InvStep(s, Enqueue(w));
    var t := Next(s, Enqueue(w));
    assert t.queue[|s.queue|] == s.main.fd;
    more := WaitingIsServed(t, s.main.fd);
  }

  // ---------------------------------------------------------------- shutdown

  function TeardownLeft(s: State): int {
    match s.main
    case Joining(next) => |s.workers| - next + |s.queue| + 5
    case Draining => |s.queue| + 4
    case PoolGone => 3
    case CacheFreed => 2
    case _ => 1
  }

  function ShutdownLeft(s: State): int {
    RankSum(s.workers) + TeardownLeft(s)
  }

  lemma ShutdownStep(s: State, a: Action)
    requires Inv(s) && s.shutdown && Enabled(s, a)
    ensures Inv(Next(s, a)) && Next(s, a).shutdown && |Next(s, a).workers| == |s.workers|
    ensures ShutdownLeft(Next(s, a)) < ShutdownLeft(s)
  {
    InvStep(s, a);
    if a.WakeSpuriously? {
      assert AnyAsleep(s.workers);
    } else if IsWork(a) {
      WorkFalls(s, a);
    }
  }

  // Until everything is freed some thread can move.
  lemma ShutdownNotStuck(s: State) returns (a: Action)
    requires Inv(s) && s.shutdown && |s.workers| <= MAX_CLIENTS && !s.main.ConnectionsFreed?
    ensures Enabled(s, a)
  {
    match s.main
    case Joining(next) =>
      if next == |s.workers| {
        a := JoinedAll;
      } else if s.workers[next].Exited? {
        a := Join;
      } else {
        assert !s.workers[next].Asleep?;
        AwakeCanWork(s, next);
        a := WorkOf(s, next);
      }
    case Draining => a := if s.queue == [] then DrainedAll else DrainOne;
    case PoolGone => a := FreeCache;
    case CacheFreed => a := FreeConnections;
  }

  lemma {:induction false} ShutdownRunBounded(s: State, run: seq<Action>)
    requires Inv(s) && s.shutdown && CanRun(s, run)
    ensures Inv(After(s, run)) && After(s, run).shutdown && |After(s, run).workers| == |s.workers|
    ensures |run| + ShutdownLeft(After(s, run)) <= ShutdownLeft(s)
    decreases |run|
  {
    if run != [] {
      ShutdownStep(s, run[0]);
      ShutdownRunBounded(Next(s, run[0]), run[1..]);
    }
  }

  // Shutdown terminates: every run from a flagged state is shorter than ShutdownLeft, and one
  // that cannot go on has freed everything, with every worker gone, every accepted socket
  // closed exactly as often as it was accepted, and the sockets served followed by the sockets
  // drained being exactly the sockets queued, in order.
  lemma ShutdownTerminates(s: State, run: seq<Action>)
    requires Inv(s) && s.shutdown && |s.workers| <= MAX_CLIENTS && CanRun(s, run)
    ensures |run| < ShutdownLeft(s)
    ensures var t := After(s, run);
            (forall a :: !Enabled(t, a)) ==>
              && t.main.ConnectionsFreed? && AllExited(t.workers)
              && t.accepted == t.closed
              && t.added == t.taken + t.drained
  {
    ShutdownRunBounded(s, run);
    var t := After(s, run);
    if forall a :: !Enabled(t, a) {
      if !t.main.ConnectionsFreed? {
        var a := ShutdownNotStuck(t);
        assert false;
      }
      NothingHeld(t);
    }
  }

  // The cache and the connection pool are freed only once every worker has exited, so no
  // handler can still be using them.
  lemma FreedAfterExit(n: nat, run: seq<Action>, a: Action)
    requires CanRun(Init(n), run) && Enabled(Reached(n, run), a)
    requires a == FreeCache || a == FreeConnections
    ensures AllExited(Reached(n, run).workers)
    ensures Reached(n, run).accepted == Reached(n, run).closed
  {
    ReachedInv(n, run);
    NothingHeld(Reached(n, run));
  }
}
