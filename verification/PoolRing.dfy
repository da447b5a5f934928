/** The task queue of DNS_server/thread.c: a circular buffer of 100 slots, and the critical sections
    of the functions that use it. */
module PoolRing {
  const MAX_QUEUE := 100

  /** A function pointer and its argument. */
  datatype Task = Task(function_: int, argument: int)

  /** The queue's fields as one value. */
  datatype Ring = Ring(slots: seq<Task>, front: int, rear: int, size: int)

  ghost predicate RingValid(r: Ring) {
    && |r.slots| == MAX_QUEUE
    && 0 <= r.front < MAX_QUEUE && 0 <= r.size <= MAX_QUEUE
    && r.rear == (r.front + r.size) % MAX_QUEUE
  }

  /** The tasks waiting, oldest first. */
  ghost function Contents(r: Ring): (tasks: seq<Task>)
    requires RingValid(r)
    ensures |tasks| == r.size
    ensures forall i | 0 <= i < r.size :: tasks[i] == r.slots[(r.front + i) % MAX_QUEUE]
  {
    seq(r.size, i requires 0 <= i < r.size => r.slots[(r.front + i) % MAX_QUEUE])
  }

  function Enqueue(r: Ring, task: Task): Ring
    requires RingValid(r)
  {
    Ring(r.slots[r.rear := task], r.front, (r.rear + 1) % MAX_QUEUE, r.size + 1)
  }

  function Dequeue(r: Ring): Ring
    requires RingValid(r)
  {
    Ring(r.slots, (r.front + 1) % MAX_QUEUE, r.rear, r.size - 1)
  }

  /** What a worker holding the lock does next. */
  datatype Verdict = Wait | Exit | Fetch(task: Task)

  function Decide(r: Ring, stop: bool): Verdict
    requires RingValid(r)
  {
    if r.size == 0 && !stop then Wait
    else if stop then Exit
    else Fetch(r.slots[r.front])
  }

  /** What addTaskToThreadPool returns. */
  function AddReturns(r: Ring): int {
    if r.size == MAX_QUEUE then -1 else 0
  }

  /** The circular buffer refines a queue: adding at the rear. */
  lemma EnqueueAppends(r: Ring, task: Task)
    requires RingValid(r) && r.size < MAX_QUEUE
    ensures RingValid(Enqueue(r, task))
    ensures Contents(Enqueue(r, task)) == Contents(r) + [task]
  {
  }

  /** The circular buffer refines a queue: taking from the front. */
  lemma DequeueTakesFirst(r: Ring)
    requires RingValid(r) && r.size > 0
    ensures RingValid(Dequeue(r))
    ensures r.slots[r.front] == Contents(r)[0]
    ensures Contents(Dequeue(r)) == Contents(r)[1..]
  {
  }

  class ThreadPool {
    var taskQueue: array<Task>
    var queueSize: int
    var queueFront: int
    var queueRear: int
    var stop: bool

    ghost function View(): Ring
      reads this, taskQueue
    {
      Ring(taskQueue[..], queueFront, queueRear, queueSize)
    }

    ghost predicate Valid()
      reads this, taskQueue
    {
      RingValid(View())
    }

    constructor ()
      ensures Valid() && fresh(taskQueue) && !stop
      ensures Contents(View()) == []
    {
      taskQueue := new Task[MAX_QUEUE](_ => Task(0, 0));
      queueSize, queueFront, queueRear := 0, 0, 0;
      stop := false;
    }

    /** addTaskToThreadPool: -1 and no change when the queue is full. A pool that has been stopped
        still accepts tasks. */
    method AddTask(task: Task) returns (r: int)
      requires Valid()
      modifies this`queueRear, this`queueSize, taskQueue
      ensures Valid()
      ensures r == AddReturns(old(View())) == if old(queueSize) == 100 then -1 else 0
      ensures View() == if r == 0 then Enqueue(old(View()), task) else old(View())
      ensures Contents(View()) == old(Contents(View())) + if r == 0 then [task] else []
    {
      if queueSize == MAX_QUEUE {
        assert taskQueue[..] == old(taskQueue[..]);
        return -1;
      }
      EnqueueAppends(View(), task);
      taskQueue[queueRear] := task;
      queueRear := (queueRear + 1) % MAX_QUEUE;
      queueSize := queueSize + 1;
      assert View() == Enqueue(old(View()), task);
      r := 0;
    }

    /** threadWorker, from taking the lock (or waking with it) to giving it up: either the worker
        goes to wait, or it exits, or it leaves with the oldest task. */
    method CheckQueue() returns (verdict: Verdict)
      requires Valid()
      modifies this`queueFront, this`queueSize
      ensures Valid()
      ensures verdict == old(Decide(View(), stop))
      ensures View() == if verdict.Fetch? then Dequeue(old(View())) else old(View())
      ensures verdict.Fetch? ==> old(Contents(View())) == [verdict.task] + Contents(View())
    {
      if queueSize == 0 && !stop {
        return Wait;
      }
      if stop {
        return Exit;
      }
      DequeueTakesFirst(View());
      var task := taskQueue[queueFront];
      queueFront := (queueFront + 1) % MAX_QUEUE;
      queueSize := queueSize - 1;
      verdict := Fetch(task);
    }

    /** destroyThreadPool, up to the broadcast. */
    method Stop()
      modifies this`stop
      ensures stop && View() == old(View())
    {
      stop := true;
    }
  }
}
