/**
 * The task queue of src/components/thread_pool.c on its heap: a singly linked list with a tail
 * pointer and a counter, refining a mathematical FIFO sequence.  Each method is one critical
 * section under queue_mutex.
 */
module TaskQueue {
  class Task {
    const clientSocket: int
    var next: Task?

    constructor (clientSocket: int)
      ensures this.clientSocket == clientSocket && next == null
    {
      this.clientSocket := clientSocket;
      next := null;
    }
  }

  ghost function At(tasks: seq<Task>, i: int): Task? {
    if 0 <= i < |tasks| then tasks[i] else null
  }

  ghost function Sockets(tasks: seq<Task>): (sockets: seq<int>)
    ensures |sockets| == |tasks|
    ensures forall i :: 0 <= i < |tasks| ==> sockets[i] == tasks[i].clientSocket
  {
    seq(|tasks|, i requires 0 <= i < |tasks| => tasks[i].clientSocket)
  }

  ghost predicate Apart(tasks: seq<Task>, i: int, j: int) {
    0 <= i < j < |tasks| ==> tasks[i] != tasks[j]
  }

  // `next` runs along `tasks`, and no task is there twice.
  ghost predicate Linked(tasks: seq<Task>)
    reads tasks`next
  {
    && (forall i, j {:trigger Apart(tasks, i, j)} :: Apart(tasks, i, j))
    && (forall i {:trigger tasks[i].next} :: 0 <= i < |tasks| ==> tasks[i].next == At(tasks, i + 1))
  }

  lemma RestLinked(tasks: seq<Task>)
    requires Linked(tasks) && tasks != []
    ensures Linked(tasks[1..])
    ensures At(tasks[1..], 0) == tasks[0].next
    ensures Sockets(tasks) == [tasks[0].clientSocket] + Sockets(tasks[1..])
  {
    var rest := tasks[1..];
    forall i, j
      ensures Apart(rest, i, j)
    {
      assert Apart(tasks, i + 1, j + 1);
    }
    forall i | 0 <= i < |rest|
      ensures rest[i].next == At(rest, i + 1)
    {
      assert tasks[i + 1].next == At(tasks, i + 2);
    }
  }

  lemma MoveAcross(a: seq<int>, x: int, b: seq<int>)
    ensures a + ([x] + b) == (a + [x]) + b
  {
  }

  class TaskQueue {
    var head: Task?
    var tail: Task?
    var queueSize: int

    ghost var tasks: seq<Task>
    ghost var added: seq<int>  // every socket ever queued, in order
    ghost var taken: seq<int>  // every socket handed to a worker, in order

    // head is null exactly when tail is; tail is the last node reachable from head; the
    // counter is the length; what was added is what was taken followed by what is waiting.
    ghost predicate Valid()
      reads this, tasks
    {
      && Linked(tasks)
      && head == At(tasks, 0)
      && tail == At(tasks, |tasks| - 1)
      && queueSize == |tasks|
      && added == taken + Contents()
    }

    ghost function Contents(): seq<int>
      reads this
    {
      Sockets(tasks)
    }

    constructor ()
      ensures Valid() && tasks == [] && added == [] && taken == []
    {
      head, tail, queueSize := null, null, 0;
      tasks, added, taken := [], [], [];
    }

    // thread_pool_add_task; `allocOk` is false when the node cannot be allocated.
    method AddTask(clientSocket: int, allocOk: bool) returns (code: int)
      requires Valid()
      modifies this, tasks
      ensures Valid() && taken == old(taken)
      ensures code == if clientSocket > 0 && allocOk then 0 else -1
      ensures Contents() == if code == 0 then old(Contents()) + [clientSocket] else old(Contents())
      ensures forall t :: t in tasks ==> t in old(tasks) || fresh(t)
    {
      if clientSocket <= 0 || !allocOk {
        return -1;
      }
      var task := new Task(clientSocket);
      ghost var was := tasks;
      if tail != null {
        tail.next := task;
      } else {
        head := task;
      }
      tail := task;
      queueSize := queueSize + 1;
      tasks := was + [task];
      added := added + [clientSocket];
      assert Sockets(tasks) == Sockets(was) + [clientSocket];
      forall i, j
        ensures Apart(tasks, i, j)
      {
        assert Apart(was, i, j);
      }
      forall i | 0 <= i < |tasks|
        ensures tasks[i].next == At(tasks, i + 1)
      {
        if i < |was| {
          assert tasks[i] == was[i] && Apart(was, i, |was| - 1) && old(was[i].next) == At(was, i + 1);
        }
      }
      code := 0;
    }

    // The worker's critical section once it has found work.
    method Take() returns (task: Task?)
      requires Valid()
      modifies this
      ensures Valid() && added == old(added)
      ensures task == null <==> old(Contents()) == []
      ensures task == null ==> Contents() == [] && taken == old(taken)
      ensures task != null ==> old(Contents()) == [task.clientSocket] + Contents()
      ensures task != null ==> taken == old(taken) + [task.clientSocket]
    {
      task := head;
      if task != null {
        RestLinked(tasks);
        MoveAcross(taken, task.clientSocket, Sockets(tasks[1..]));
        head := task.next;
        if head == null {
          tail := null;
        }
        queueSize := queueSize - 1;
        taken := taken + [task.clientSocket];
        tasks := tasks[1..];
      }
    }

    // The walk of thread_pool_destroy: closes what is left.  Together with the sockets taken
    // before, the close order is the add order.
    method Drain() returns (closed: seq<int>)
      requires Valid()
      ensures closed == Contents()
      ensures taken + closed == added
    {
      closed := [];
      var current := head;
      ghost var i := 0;
      while current != null
        invariant 0 <= i <= |tasks| && current == At(tasks, i)
        invariant closed == Sockets(tasks)[..i]
        decreases |tasks| - i
      {
        assert tasks[i].next == At(tasks, i + 1);
        var next := current.next;
        closed := closed + [current.clientSocket];
        current := next;
        i := i + 1;
      }
    }
  }
}
