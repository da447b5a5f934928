/** The worker pool of DNS_server/thread.c as a transition system: any number of workers, one lock,
    one condition variable. Every critical section is one action; between them the scheduler may
    do anything, and waiting workers may wake for no reason. */
module PoolProtocol {
  import opened Bytes
  import opened PoolRing

  /** Where a worker is: about to take the lock; inside pthread_cond_wait; woken there and about to
      take the lock again; running a task without the lock; gone. */
  datatype Phase = Checking | Waiting | Woken | Executing(task: Task) | Exited

  /** `accepted` and `fetched` record the history: tasks added with success, tasks taken. */
  datatype State = State(ring: Ring, stop: bool, workers: seq<Phase>, accepted: seq<Task>, fetched: seq<Task>)

  datatype Action =
    | Check(w: nat)                                // a worker looks at the queue, holding the lock
    | Finish(w: nat)                               // its task returns
    | SpuriousWake(w: nat)
    | Add(task: Task, signalled: Option<nat>)      // addTaskToThreadPool, and whom the signal wakes
    | Shutdown                                     // destroyThreadPool: stop, then broadcast

  function Init(n: nat): State {
    State(Ring(seq(MAX_QUEUE, _ => Task(0, 0)), 0, 0, 0), false, seq(n, _ => Checking), [], [])
  }

  function WakeAll(workers: seq<Phase>): (woken: seq<Phase>)
    ensures |woken| == |workers|
    ensures forall w | 0 <= w < |workers| :: woken[w] == if workers[w] == Waiting then Woken else workers[w]
  {
    if workers == [] then []
    else [if workers[0] == Waiting then Woken else workers[0]] + WakeAll(workers[1..])
  }

  /** pthread_cond_signal wakes a waiting worker if there is one. (Should it wake more, the others
      wake spuriously.) */
  ghost predicate Enabled(s: State, a: Action) {
    && RingValid(s.ring)
    && match a {
      case Check(w) => w < |s.workers| && (s.workers[w] == Checking || s.workers[w] == Woken)
      case Finish(w) => w < |s.workers| && s.workers[w].Executing?
      case SpuriousWake(w) => w < |s.workers| && s.workers[w] == Waiting
      case Add(_, signalled) =>
        if s.ring.size == MAX_QUEUE then signalled == None
        else if signalled.Some? then signalled.value < |s.workers| && s.workers[signalled.value] == Waiting
        else Waiting !in s.workers
      case Shutdown => true
    }
  }

  ghost function Apply(s: State, a: Action): State
    requires Enabled(s, a)
  {
    match a
    case Check(w) => Look(s, w)
    case Finish(w) => s.(workers := s.workers[w := Checking])
    case SpuriousWake(w) => s.(workers := s.workers[w := Woken])
    case Add(task, signalled) =>
      if s.ring.size == MAX_QUEUE then s
      else
        s.(ring := Enqueue(s.ring, task), accepted := s.accepted + [task],
           workers := if signalled.Some? then s.workers[signalled.value := Woken] else s.workers)
    case Shutdown => s.(stop := true, workers := WakeAll(s.workers))
  }

  /** What ThreadPool.CheckQueue decides and does, seen from the whole pool. */
  ghost function Look(s: State, w: nat): State
    requires RingValid(s.ring) && w < |s.workers|
  {
    match Decide(s.ring, s.stop)
    case Wait => s.(workers := s.workers[w := Waiting])
    case Exit => s.(workers := s.workers[w := Exited])
    case Fetch(task) =>
      s.(ring := Dequeue(s.ring), workers := s.workers[w := Executing(task)], fetched := s.fetched + [task])
  }

  /** Sum of a weight over the workers. */
  function Weight(p: Phase, executing: nat, awake: nat, woken: nat): nat {
    match p
    case Executing(_) => executing
    case Checking => awake
    case Woken => awake + woken
    case _ => 0
  }

  function Total(workers: seq<Phase>, executing: nat, awake: nat, woken: nat): nat {
    if workers == [] then 0
    else Weight(workers[0], executing, awake, woken) + Total(workers[1..], executing, awake, woken)
  }

  /** How many workers have been woken and have not yet taken the lock. */
  function WokenCount(workers: seq<Phase>): nat {
    Total(workers, 0, 0, 1)
  }

  lemma {:induction false} TotalUpdate(workers: seq<Phase>, w: nat, p: Phase, executing: nat, awake: nat, woken: nat)
    requires w < |workers|
    ensures Total(workers[w := p], executing, awake, woken) + Weight(workers[w], executing, awake, woken)
         == Total(workers, executing, awake, woken) + Weight(p, executing, awake, woken)
  {
    if w == 0 {
      assert workers[w := p][1..] == workers[1..];
    } else {
      assert workers[w := p][1..] == workers[1..][w - 1 := p];
      TotalUpdate(workers[1..], w - 1, p, executing, awake, woken);
    }
  }

  lemma {:induction false} TotalBounds(workers: seq<Phase>, executing: nat, awake: nat)
    requires awake <= executing
    ensures Total(workers, executing, awake, 0) <= executing * |workers|
  {
    if workers != [] {
      TotalBounds(workers[1..], executing, awake);
    }
  }

  lemma {:induction false} WokenCounted(workers: seq<Phase>)
    ensures WokenCount(workers) > 0 <==> Woken in workers
  {
    if workers != [] {
      WokenCounted(workers[1..]);
      assert workers == [workers[0]] + workers[1..];
    }
  }

  lemma UpdateMembers(workers: seq<Phase>, w: nat, p: Phase)
    requires w < |workers|
    ensures forall q | q in workers[w := p] :: q == p || q in workers
  {
  }

  // ---- Invariant and runs ----

  ghost predicate Inv(s: State) {
    && RingValid(s.ring)
    && s.accepted == s.fetched + Contents(s.ring)
    && (!s.stop && Waiting in s.workers ==> s.ring.size <= WokenCount(s.workers))
    && (s.stop ==> Waiting !in s.workers)
    && (!s.stop ==> Exited !in s.workers)
  }

  lemma InitInv(n: nat)
    ensures Inv(Init(n))
  {
  }

  /** Changing one worker, with the queue as it is. */
  lemma WorkerChangeKeepsInv(s: State, w: nat, p: Phase)
    requires Inv(s) && w < |s.workers|
    requires s.workers[w] == Woken && p != Woken ==> s.ring.size == 0
    requires p == Waiting ==> s.ring.size == 0 && !s.stop
    requires p == Exited ==> s.stop
    ensures Inv(s.(workers := s.workers[w := p]))
  {
    TotalUpdate(s.workers, w, p, 0, 0, 1);
    UpdateMembers(s.workers, w, p);
  }

  lemma FetchKeepsInv(s: State, w: nat)
    requires Inv(s) && w < |s.workers| && Decide(s.ring, s.stop).Fetch?
    ensures Inv(Look(s, w))
  {
    hide Contents, RingValid, Dequeue;
    var task := Decide(s.ring, s.stop).task;
    var tasks := Contents(s.ring);
    DequeueTakesFirst(s.ring);
    FetchKeepsWaking(s.workers, w, task);
    assert tasks == [tasks[0]] + tasks[1..];
    assert s.fetched + ([tasks[0]] + tasks[1..]) == (s.fetched + [tasks[0]]) + tasks[1..];
  }

  /** One task fewer, and at most one woken worker fewer. */
  lemma FetchKeepsWaking(workers: seq<Phase>, w: nat, task: Task)
    requires w < |workers|
    ensures var now := workers[w := Executing(task)];
            && WokenCount(now) >= WokenCount(workers) - 1
            && (Waiting in now ==> Waiting in workers)
            && (Exited in now ==> Exited in workers)
  {
    TotalUpdate(workers, w, Executing(task), 0, 0, 1);
    UpdateMembers(workers, w, Executing(task));
  }

  lemma AddKeepsInv(s: State, task: Task, signalled: Option<nat>)
    requires Inv(s) && Enabled(s, Add(task, signalled))
    ensures Inv(Apply(s, Add(task, signalled)))
  {
    if s.ring.size < MAX_QUEUE {
      EnqueueAppends(s.ring, task);
      hide Contents, RingValid;
      assert s.fetched + (Contents(s.ring) + [task]) == (s.fetched + Contents(s.ring)) + [task];
      if signalled.Some? {
        TotalUpdate(s.workers, signalled.value, Woken, 0, 0, 1);
        UpdateMembers(s.workers, signalled.value, Woken);
        assert s.workers[signalled.value] in s.workers;
      }
    }
  }

  /** Every action keeps the invariant. */
  lemma StepKeepsInv(s: State, a: Action)
    requires Inv(s) && Enabled(s, a)
    ensures Inv(Apply(s, a))
  {
    match a
    case Check(w) =>
      match Decide(s.ring, s.stop) {
        case Wait => WorkerChangeKeepsInv(s, w, Waiting);
        case Exit => ExitKeepsInv(s, w);
        case Fetch(_) => FetchKeepsInv(s, w);
      }
    case Add(task, signalled) => AddKeepsInv(s, task, signalled);
    case Finish(w) => WorkerChangeKeepsInv(s, w, Checking);
    case SpuriousWake(w) => WorkerChangeKeepsInv(s, w, Woken);
    case Shutdown =>
  }

  lemma ExitKeepsInv(s: State, w: nat)
    requires Inv(s) && s.stop && w < |s.workers|
    ensures Inv(s.(workers := s.workers[w := Exited]))
  {
  }

  /** The actions can be taken one after another from s. */
  ghost predicate Runs(s: State, acts: seq<Action>)
    decreases |acts|
  {
    acts == [] || (Enabled(s, acts[0]) && Runs(Apply(s, acts[0]), acts[1..]))
  }

  ghost function Exec(s: State, acts: seq<Action>): State
    requires Runs(s, acts)
    decreases |acts|
  {
    if acts == [] then s else Exec(Apply(s, acts[0]), acts[1..])
  }

  lemma {:induction false} RunKeepsInv(s: State, acts: seq<Action>)
    requires Inv(s) && Runs(s, acts)
    ensures Inv(Exec(s, acts))
    decreases |acts|
  {
    if acts != [] {
      StepKeepsInv(s, acts[0]);
      RunKeepsInv(Apply(s, acts[0]), acts[1..]);
    }
  }

  /** FIFO and conservation over every run: the accepted tasks are those fetched, in the order of
      acceptance, followed by those still queued. */
  lemma FifoConservation(n: nat, acts: seq<Action>)
    requires Runs(Init(n), acts)
    ensures var s := Exec(Init(n), acts);
            && RingValid(s.ring)
            && s.accepted == s.fetched + Contents(s.ring)
            && s.fetched <= s.accepted
            && s.accepted == OfferedWithRoom(Init(n), acts)
  {
    InitInv(n);
    RunKeepsInv(Init(n), acts);
    AcceptedExactly(Init(n), acts);
  }

  /** No lost wakeup, in every reachable state of a pool that has not been stopped: while somebody
      waits, at least as many workers have been woken as there are tasks; so with a task queued
      some worker is awake, and the next one to look at the queue leaves with the oldest task. */
  lemma NoLostWakeup(n: nat, acts: seq<Action>)
    requires Runs(Init(n), acts)
    requires var s := Exec(Init(n), acts); !s.stop
    ensures var s := Exec(Init(n), acts);
            && RingValid(s.ring)
            && (Waiting in s.workers ==> s.ring.size <= WokenCount(s.workers))
            && (s.ring.size > 0 && Waiting in s.workers ==> Woken in s.workers)
            && (s.ring.size > 0 ==> Decide(s.ring, s.stop) == Fetch(Contents(s.ring)[0]))
            && (s.ring.size > 0 && |s.workers| > 0 ==> exists w | w in s.workers :: !w.Waiting? && !w.Exited?)
  {
    InitInv(n);
    RunKeepsInv(Init(n), acts);
    var s := Exec(Init(n), acts);
    WokenCounted(s.workers);
    if s.ring.size > 0 {
      DequeueTakesFirst(s.ring);
      if |s.workers| > 0 {
        assert s.workers[0] in s.workers;
        assert Waiting in s.workers ==> Woken in s.workers;
      }
    }
  }

  // ---- Which tasks are accepted ----

  /** The tasks offered to the pool, in order. */
  function Offered(acts: seq<Action>): seq<Task> {
    if acts == [] then []
    else (if acts[0].Add? then [acts[0].task] else []) + Offered(acts[1..])
  }

  /** The tasks offered while fewer than 100 were queued. */
  ghost function OfferedWithRoom(s: State, acts: seq<Action>): seq<Task>
    requires Runs(s, acts)
    decreases |acts|
  {
    if acts == [] then []
    else
      (if acts[0].Add? && s.ring.size < 100 then [acts[0].task] else [])
      + OfferedWithRoom(Apply(s, acts[0]), acts[1..])
  }

  /** One offer: it is accepted, at the end of the queue, exactly when AddTask returns 0, stopped or
      not. */
  lemma OfferAccepted(s: State, task: Task, signalled: Option<nat>)
    requires Enabled(s, Add(task, signalled))
    ensures var s' := Apply(s, Add(task, signalled));
            && RingValid(s'.ring)
            && (AddReturns(s.ring) == 0 <==> s.ring.size < 100)
            && s'.accepted == s.accepted + (if AddReturns(s.ring) == 0 then [task] else [])
            && Contents(s'.ring) == Contents(s.ring) + (if AddReturns(s.ring) == 0 then [task] else [])
            && s'.stop == s.stop && s'.fetched == s.fetched
  {
    if s.ring.size < MAX_QUEUE {
      EnqueueAppends(s.ring, task);
    }
  }

  /** A worker at the queue: it leaves with the oldest task, and runs that one, if there is one and
      the pool is not stopped; it exits if the pool is stopped; it waits otherwise. */
  lemma CheckTakesOldest(s: State, w: nat)
    requires Enabled(s, Check(w))
    ensures var s' := Apply(s, Check(w));
            && RingValid(s'.ring)
            && s'.accepted == s.accepted && s'.stop == s.stop
            && if !s.stop && Contents(s.ring) != [] then
                 && s'.workers == s.workers[w := Executing(Contents(s.ring)[0])]
                 && s'.fetched == s.fetched + [Contents(s.ring)[0]]
                 && Contents(s'.ring) == Contents(s.ring)[1..]
               else
                 && s'.workers == s.workers[w := if s.stop then Exited else Waiting]
                 && s'.ring == s.ring && s'.fetched == s.fetched
  {
    if !s.stop && s.ring.size > 0 {
      DequeueTakesFirst(s.ring);
    }
  }

  /** The scheduler is free: whoever is about to look, runs a task, or waits may move next; every
      task may be offered, and the pool stopped, at any time. */
  lemma AnyInterleaving(s: State, task: Task)
    requires RingValid(s.ring)
    ensures forall w: nat | w < |s.workers| ::
              match s.workers[w]
              case Checking => Enabled(s, Check(w))
              case Woken => Enabled(s, Check(w))
              case Executing(_) => Enabled(s, Finish(w))
              case Waiting => Enabled(s, SpuriousWake(w)) && (s.ring.size < 100 ==> Enabled(s, Add(task, Some(w))))
              case Exited => true
    ensures Enabled(s, Shutdown) && exists signalled :: Enabled(s, Add(task, signalled))
  {
    if s.ring.size < MAX_QUEUE && Waiting in s.workers {
      var w: nat :| w < |s.workers| && s.workers[w] == Waiting;
      assert Enabled(s, Add(task, Some(w)));
    } else {
      assert Enabled(s, Add(task, None));
    }
  }

  /** Over every run exactly the tasks offered with room are accepted, in their order, also after
      the stop. */
  lemma {:induction false} AcceptedExactly(s: State, acts: seq<Action>)
    requires Runs(s, acts)
    ensures Exec(s, acts).accepted == s.accepted + OfferedWithRoom(s, acts)
    decreases |acts|
  {
    if acts != [] {
      var a := acts[0];
      StepAccepts(s, a);
      AcceptedExactly(Apply(s, a), acts[1..]);
    }
  }

  lemma StepAccepts(s: State, a: Action)
    requires Enabled(s, a)
    ensures Apply(s, a).accepted == s.accepted + if a.Add? && s.ring.size < 100 then [a.task] else []
    ensures |Contents(s.ring)| == s.ring.size
    ensures Apply(s, a).ring.size <= s.ring.size + if a.Add? then 1 else 0
  {
    if a.Add? {
      OfferAccepted(s, a.task, a.signalled);
    } else if a.Check? {
      CheckTakesOldest(s, a.w);
    }
  }

  /** No task is lost while no more than 100 can be queued. */
  lemma {:induction false} AllAccepted(s: State, acts: seq<Action>)
    requires Runs(s, acts) && s.ring.size + |Offered(acts)| <= 100
    ensures Exec(s, acts).accepted == s.accepted + Offered(acts)
    decreases |acts|
  {
    if acts != [] {
      StepAccepts(s, acts[0]);
      AllAccepted(Apply(s, acts[0]), acts[1..]);
    }
  }

  // ---- Progress ----

  predicate IsWorkerStep(a: Action) {
    a.Check? || a.Finish?
  }

  function WorkerSteps(acts: seq<Action>): nat {
    if acts == [] then 0 else (if IsWorkerStep(acts[0]) then 1 else 0) + WorkerSteps(acts[1..])
  }

  /** What the outside can add to the work: a task costs its fetch and a wakeup, a spurious wakeup
      one look at the queue. */
  function Charge(acts: seq<Action>): nat {
    if acts == [] then 0
    else (if acts[0].Add? then 4 else if acts[0].SpuriousWake? then 1 else 0) + Charge(acts[1..])
  }

  /** An upper bound on the worker steps left: three for a queued task, two for a running one, one
      for a worker about to look. */
  ghost function Work(s: State): nat
    requires RingValid(s.ring)
  {
    3 * s.ring.size + Total(s.workers, 2, 1, 0)
  }

  lemma StepWork(s: State, a: Action)
    requires Inv(s) && Enabled(s, a) && a != Shutdown && !s.stop
    ensures Inv(Apply(s, a)) && !Apply(s, a).stop
    ensures WorkerSteps([a]) + Work(Apply(s, a)) <= Work(s) + Charge([a])
  {
    StepKeepsInv(s, a);
    var s' := Apply(s, a);
    match a
    case Check(w) => TotalUpdate(s.workers, w, s'.workers[w], 2, 1, 0);
    case Finish(w) => TotalUpdate(s.workers, w, Checking, 2, 1, 0);
    case SpuriousWake(w) => TotalUpdate(s.workers, w, Woken, 2, 1, 0);
    case Add(_, signalled) =>
      if signalled.Some? {
        TotalUpdate(s.workers, signalled.value, Woken, 2, 1, 0);
      }
  }

  lemma {:induction false} RunWork(s: State, acts: seq<Action>)
    requires Inv(s) && !s.stop && Runs(s, acts) && Shutdown !in acts
    ensures Inv(Exec(s, acts)) && !Exec(s, acts).stop
    ensures WorkerSteps(acts) + Work(Exec(s, acts)) <= Work(s) + Charge(acts)
    decreases |acts|
  {
    if acts != [] {
      StepWork(s, acts[0]);
      RunWork(Apply(s, acts[0]), acts[1..]);
    }
  }

  ghost predicate Quiescent(s: State) {
    forall a | IsWorkerStep(a) :: !Enabled(s, a)
  }

  /** The pool drains: left without shutdown, the workers can take only so many steps; and when
      they can take no more, nothing is queued and every accepted task has been fetched. */
  lemma PoolDrains(n: nat, acts: seq<Action>)
    requires n > 0 && Runs(Init(n), acts) && Shutdown !in acts
    ensures WorkerSteps(acts) <= n + Charge(acts)
    ensures var s := Exec(Init(n), acts);
            Quiescent(s) ==> s.ring.size == 0 && s.fetched == s.accepted
  {
    InitInv(n);
    RunWork(Init(n), acts);
    InitWork(n);
    var s := Exec(Init(n), acts);
    KeepsWorkers(Init(n), acts);
    if Quiescent(s) {
      assert !Enabled(s, Check(0)) && !Enabled(s, Finish(0));
      assert s.workers[0] in s.workers;
      forall w: nat | w < |s.workers|
        ensures s.workers[w] != Woken
      {
        assert !Enabled(s, Check(w));
      }
      WokenCounted(s.workers);
      assert s.fetched + [] == s.fetched;
    }
  }

  lemma {:induction false} InitWork(n: nat)
    ensures Work(Init(n)) == n
  {
    CheckingTotal(Init(n).workers);
  }

  lemma {:induction false} CheckingTotal(workers: seq<Phase>)
    requires forall p | p in workers :: p == Checking
    ensures Total(workers, 2, 1, 0) == |workers|
  {
    if workers != [] {
      assert workers[0] in workers;
      assert forall p | p in workers[1..] :: p in workers;
      CheckingTotal(workers[1..]);
    }
  }

  lemma {:induction false} KeepsWorkers(s: State, acts: seq<Action>)
    requires Runs(s, acts)
    ensures |Exec(s, acts).workers| == |s.workers|
    decreases |acts|
  {
    if acts != [] {
      KeepsWorkers(Apply(s, acts[0]), acts[1..]);
    }
  }

  /** After the stop no worker waits, so the steps left are those of the tasks running and of the
      looks that lead out. */
  ghost function Rank(s: State): nat {
    Total(s.workers, 2, 1, 0)
  }

  lemma StoppedStep(s: State, a: Action)
    requires Inv(s) && s.stop && Enabled(s, a)
    ensures Inv(Apply(s, a)) && Apply(s, a).stop
    ensures Apply(s, a).fetched == s.fetched
    ensures WorkerSteps([a]) + Rank(Apply(s, a)) == Rank(s)
  {
    StepKeepsInv(s, a);
    assert forall w: nat | w < |s.workers| :: s.workers[w] in s.workers;
    match a
    case Check(w) => TotalUpdate(s.workers, w, Exited, 2, 1, 0);
    case Finish(w) => TotalUpdate(s.workers, w, Checking, 2, 1, 0);
    case Shutdown => assert WakeAll(s.workers) == s.workers;
    case _ =>
  }

  lemma {:induction false} StoppedRun(s: State, acts: seq<Action>)
    requires Inv(s) && s.stop && Runs(s, acts)
    ensures Inv(Exec(s, acts)) && Exec(s, acts).stop
    ensures Exec(s, acts).fetched == s.fetched
    ensures WorkerSteps(acts) + Rank(Exec(s, acts)) == Rank(s)
    decreases |acts|
  {
    if acts != [] {
      StoppedStep(s, acts[0]);
      StoppedRun(Apply(s, acts[0]), acts[1..]);
    }
  }

  /** Shutdown completes: from any reachable state, once the pool is stopped nobody is or becomes
      Waiting, no task is fetched, each worker step uses up one of at most two per worker, and when
      none is possible every worker has exited; the tasks left undone are those queued. */
  lemma ShutdownCompletes(n: nat, before: seq<Action>, after: seq<Action>)
    requires Runs(Init(n), before) && Enabled(Exec(Init(n), before), Shutdown)
    requires Runs(Apply(Exec(Init(n), before), Shutdown), after)
    ensures var stopped := Apply(Exec(Init(n), before), Shutdown);
            var s := Exec(stopped, after);
            && RingValid(s.ring)
            && WorkerSteps(after) + Rank(s) == Rank(stopped) <= 2 * n
            && Waiting !in s.workers
            && s.fetched == Exec(Init(n), before).fetched
            && s.accepted == s.fetched + Contents(s.ring)
            && (Quiescent(s) <==> forall p | p in s.workers :: p == Exited)
  {
    InitInv(n);
    RunKeepsInv(Init(n), before);
    KeepsWorkers(Init(n), before);
    var stopped := Apply(Exec(Init(n), before), Shutdown);
    StepKeepsInv(Exec(Init(n), before), Shutdown);
    StoppedRun(stopped, after);
    TotalBounds(stopped.workers, 2, 1);
    ExitedExactlyWhenQuiet(Exec(stopped, after));
  }

  lemma ExitedExactlyWhenQuiet(s: State)
    requires Inv(s) && s.stop
    ensures Quiescent(s) <==> forall p | p in s.workers :: p == Exited
  {
    if Quiescent(s) {
      forall p | p in s.workers
        ensures p == Exited
      {
        var w: nat :| w < |s.workers| && s.workers[w] == p;
        assert !Enabled(s, Check(w)) && !Enabled(s, Finish(w));
      }
    }
    if forall p | p in s.workers :: p == Exited {
      forall a | IsWorkerStep(a)
        ensures !Enabled(s, a)
      {
        if a.w < |s.workers| {
          assert s.workers[a.w] in s.workers;
        }
      }
    }
  }
}
