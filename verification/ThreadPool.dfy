/** The thread pool as a step system: any number of workers, one client that submits,
    waits and finally destroys, two mutexes and two condition variables. Every lock, unlock,
    test, condition wait, signal and shared update of the code is a step of its own, signals
    wake any sleeper the scheduler likes, and sleepers may wake for no reason at all. */
module ThreadPool {
  import opened Options

  /** The program counter of a worker. Between TakeTask and Drop it is counted as working. */
  datatype Worker =
    | Top                         // while (running)
    | LockTask
    | TestQueue                   // while (!firstTask && running)
    | Asleep(signalled: bool)     // in pthread_cond_wait(taskCond)
    | LockCount
    | TakeTask                    // numThreadsWorking++; getTask
    | TookTask(task: Option<nat>)         // about to unlock threadCountMutex
    | UnlockTask(task: Option<nat>)
    | Run(task: Option<nat>)
    | LockDone
    | Drop                        // numThreadsWorking--
    | UnlockDone
    | LockExit
    | Leave                       // numThreads--
    | UnlockExit
    | Gone

  /** The program counter of the client. `destroying` tells the wait inside
      ThreadPool_destroy from a plain ThreadPool_wait; `mark` is the number of tasks whose
      ThreadPool_run had returned when the wait began. */
  datatype Client =
    | Idle
    | RunLock | RunEnqueue | RunSignal | RunUnlock
    | DestroyLock | DestroyClear | DestroyStop | DestroyBroadcast | DestroyUnlock
    | WaitLock(destroying: bool, mark: nat)
    | WaitTest(destroying: bool, mark: nat)
    | WaitAsleep(destroying: bool, mark: nat, signalled: bool)
    | WaitUnlock(destroying: bool, mark: nat)
    | Returned(mark: nat)
    | Freed

  datatype Owner = Free | ByWorker(i: nat) | ByClient

  /** Tasks are named by their order of submission. `taken`, `finished` and `discarded` are
      histories: the order of dequeuing, of completed executions, and what destroy freed. */
  datatype Pool = Pool(
    numThreads: nat, working: nat, running: bool,
    taskOwner: Owner, countOwner: Owner,
    queue: seq<nat>, workers: seq<Worker>, client: Client,
    submitted: nat, taken: seq<nat>, finished: seq<nat>, discarded: seq<nat>)

  datatype Step =
    | WorkerStep(i: nat)
    | ClientStep
    | SignalTask(i: nat)          // the client's pthread_cond_signal wakes worker i
    | StartRun | StartWait | StartDestroy
    | SpuriousWorker(i: nat)
    | SpuriousClient

  /** numThreadsWorking and numThreads are uint8_t. */
  function Byte(x: int): nat { x % 256 }

  /** What ThreadPool_init leaves, for any number of threads. */
  ghost predicate Fresh(s: Pool) {
    && (forall i | 0 <= i < |s.workers| :: s.workers[i] == Top)
    && s.numThreads == Byte(|s.workers|) && s.working == 0 && s.running
    && s.taskOwner == Free && s.countOwner == Free
    && s.queue == [] && s.client == Idle
    && s.submitted == 0 && s.taken == [] && s.finished == [] && s.discarded == []
  }

  /** A number of threads that the two counters can hold; PoolSize shows why. */
  ghost predicate Init(s: Pool) {
    Fresh(s) && |s.workers| <= 255
  }

  // ---- the workers ----

  predicate WorkerEnabled(s: Pool, i: nat) {
    && i < |s.workers|
    && match s.workers[i]
       case LockTask => s.taskOwner == Free
       case Asleep(signalled) => signalled && s.taskOwner == Free
       case LockCount => s.countOwner == Free
       case LockDone => s.countOwner == Free
       case LockExit => s.countOwner == Free
       case Gone => false
       case _ => true
  }

  /** pthread_cond_signal on threadIdleCond, whose only possible sleeper is the client. */
  function SignalIdle(c: Client): Client {
    if c.WaitAsleep? then c.(signalled := true) else c
  }

  function WorkerDo(s: Pool, i: nat): Pool
    requires WorkerEnabled(s, i)
  {
    var ws := s.workers;
    match ws[i]
    case Top => s.(workers := ws[i := if s.running then LockTask else LockExit])
    case LockTask => s.(taskOwner := ByWorker(i), workers := ws[i := TestQueue])
    case TestQueue =>
      if s.queue == [] && s.running then s.(taskOwner := Free, workers := ws[i := Asleep(false)])
      else s.(workers := ws[i := LockCount])
    case Asleep(_) => s.(taskOwner := ByWorker(i), workers := ws[i := TestQueue])
    case LockCount => s.(countOwner := ByWorker(i), workers := ws[i := TakeTask])
    case TakeTask =>
      if s.queue == [] then s.(working := Byte(s.working + 1), workers := ws[i := TookTask(None)])
      else s.(working := Byte(s.working + 1), workers := ws[i := TookTask(Some(s.queue[0]))],
              queue := s.queue[1..], taken := s.taken + [s.queue[0]])
    case TookTask(t) => s.(countOwner := Free, workers := ws[i := UnlockTask(t)])
    case UnlockTask(t) => s.(taskOwner := Free, workers := ws[i := Run(t)])
    case Run(t) =>
      s.(finished := if t.Some? then s.finished + [t.value] else s.finished, workers := ws[i := LockDone])
    case LockDone => s.(countOwner := ByWorker(i), workers := ws[i := Drop])
    case Drop =>
      s.(working := Byte(s.working - 1), workers := ws[i := UnlockDone],
         client := if Byte(s.working - 1) == 0 then SignalIdle(s.client) else s.client)
    case UnlockDone => s.(countOwner := Free, workers := ws[i := Top])
    case LockExit => s.(countOwner := ByWorker(i), workers := ws[i := Leave])
    case Leave =>
      s.(numThreads := Byte(s.numThreads - 1), workers := ws[i := UnlockExit], client := SignalIdle(s.client))
    case UnlockExit => s.(countOwner := Free, workers := ws[i := Gone])
  }

  // ---- the client ----

  predicate NobodySleeps(ws: seq<Worker>) {
    forall i | 0 <= i < |ws| :: ws[i] != Asleep(false)
  }

  predicate ClientEnabled(s: Pool) {
    match s.client
    case Idle => false
    case RunLock => s.taskOwner == Free
    case RunSignal => NobodySleeps(s.workers)
    case DestroyLock => s.taskOwner == Free
    case WaitLock(_, _) => s.countOwner == Free
    case WaitAsleep(_, _, signalled) => signalled && s.countOwner == Free
    case Freed => false
    case _ => true
  }

  predicate MustWait(s: Pool) {
    (!s.running && s.numThreads > 0) || s.queue != [] || s.working > 0
  }

  function WakeAll(ws: seq<Worker>): (r: seq<Worker>)
    ensures |r| == |ws|
    ensures forall i | 0 <= i < |ws| :: r[i] == if ws[i].Asleep? then Asleep(true) else ws[i]
  {
    seq(|ws|, i requires 0 <= i < |ws| => if ws[i].Asleep? then Asleep(true) else ws[i])
  }

  function ClientDo(s: Pool): Pool
    requires ClientEnabled(s)
  {
    match s.client
    case RunLock => s.(taskOwner := ByClient, client := RunEnqueue)
    case RunEnqueue => s.(queue := s.queue + [s.submitted], submitted := s.submitted + 1, client := RunSignal)
    case RunSignal => s.(client := RunUnlock)
    case RunUnlock => s.(taskOwner := Free, client := Idle)
    case DestroyLock => s.(taskOwner := ByClient, client := DestroyClear)
    case DestroyClear => s.(discarded := s.queue, queue := [], client := DestroyStop)
    case DestroyStop => s.(running := false, client := DestroyBroadcast)
    case DestroyBroadcast => s.(workers := WakeAll(s.workers), client := DestroyUnlock)
    case DestroyUnlock => s.(taskOwner := Free, client := WaitLock(true, s.submitted))
    case WaitLock(d, m) => s.(countOwner := ByClient, client := WaitTest(d, m))
    case WaitTest(d, m) =>
      if MustWait(s) then s.(countOwner := Free, client := WaitAsleep(d, m, false))
      else s.(client := WaitUnlock(d, m))
    case WaitAsleep(d, m, _) => s.(countOwner := ByClient, client := WaitTest(d, m))
    case WaitUnlock(d, m) => s.(countOwner := Free, client := if d then Freed else Returned(m))
    case Returned(_) => s.(client := Idle)
  }

  predicate Enabled(s: Pool, step: Step) {
    match step
    case WorkerStep(i) => WorkerEnabled(s, i)
    case ClientStep => ClientEnabled(s)
    case SignalTask(i) => s.client == RunSignal && i < |s.workers| && s.workers[i] == Asleep(false)
    case StartRun => s.client == Idle
    case StartWait => s.client == Idle
    case StartDestroy => s.client == Idle
    case SpuriousWorker(i) => i < |s.workers| && s.workers[i] == Asleep(false)
    case SpuriousClient => s.client.WaitAsleep?
  }

  function Do(s: Pool, step: Step): Pool
    requires Enabled(s, step)
  {
    match step
    case WorkerStep(i) => WorkerDo(s, i)
    case ClientStep => ClientDo(s)
    case SignalTask(i) => s.(workers := s.workers[i := Asleep(true)], client := RunUnlock)
    case StartRun => s.(client := RunLock)
    case StartWait => s.(client := WaitLock(false, s.submitted))
    case StartDestroy => s.(client := DestroyLock)
    case SpuriousWorker(i) => s.(workers := s.workers[i := Asleep(true)])
    case SpuriousClient => s.(client := s.client.(signalled := true))
  }

  ghost predicate IsRun(run: seq<Pool>, steps: seq<Step>) {
    && |run| == |steps| + 1
    && Init(run[0])
    && forall i | 0 <= i < |steps| :: Enabled(run[i], steps[i]) && run[i + 1] == Do(run[i], steps[i])
  }

  // ---- sums over the workers ----

  function Sum(ws: seq<Worker>, f: Worker -> nat): nat {
    if ws == [] then 0 else f(ws[0]) + Sum(ws[1..], f)
  }

  lemma {:induction false} SumUpdate(ws: seq<Worker>, i: nat, w: Worker, f: Worker -> nat)
    requires i < |ws|
    ensures Sum(ws[i := w], f) + f(ws[i]) == Sum(ws, f) + f(w)
  {
    if i == 0 {
      assert ws[0 := w][1..] == ws[1..];
    } else {
      SumUpdate(ws[1..], i - 1, w, f);
      assert ws[i := w][1..] == ws[1..][i - 1 := w];
    }
  }

  lemma {:induction false} SumAtLeast(ws: seq<Worker>, i: nat, f: Worker -> nat)
    requires i < |ws|
    ensures f(ws[i]) <= Sum(ws, f)
  {
    if i > 0 { SumAtLeast(ws[1..], i - 1, f); }
  }

  lemma {:induction false} SumWitness(ws: seq<Worker>, f: Worker -> nat) returns (i: nat)
    requires Sum(ws, f) > 0
    ensures i < |ws| && f(ws[i]) > 0
  {
    if f(ws[0]) > 0 {
      i := 0;
    } else {
      i := SumWitness(ws[1..], f);
      i := i + 1;
    }
  }

  lemma {:induction false} SumBound(ws: seq<Worker>, f: Worker -> nat)
    requires forall i | 0 <= i < |ws| :: f(ws[i]) <= 1
    ensures Sum(ws, f) <= |ws|
  {
    if ws != [] { SumBound(ws[1..], f); }
  }

  lemma {:induction false} SumPointwise(ws: seq<Worker>, vs: seq<Worker>, f: Worker -> nat)
    requires |ws| == |vs| && forall i | 0 <= i < |ws| :: f(ws[i]) == f(vs[i])
    ensures Sum(ws, f) == Sum(vs, f)
  {
    if ws != [] { SumPointwise(ws[1..], vs[1..], f); }
  }

  predicate IsCounted(w: Worker) {
    w.TookTask? || w.UnlockTask? || w.Run? || w.LockDone? || w.Drop?
  }

  function Counted(w: Worker): nat { if IsCounted(w) then 1 else 0 }

  function Alive(w: Worker): nat { if w.UnlockExit? || w.Gone? then 0 else 1 }

  /** Whether worker w is carrying task `id`. */
  function Holds(id: nat): Worker -> nat {
    (w: Worker) => if (w.TookTask? || w.UnlockTask? || w.Run?) && w.task == Some(id) then 1 else 0
  }

  // ---- the invariant, part by part ----

  predicate HasTaskMutex(w: Worker) {
    w.TestQueue? || w.LockCount? || w.TakeTask? || w.TookTask? || w.UnlockTask?
  }

  predicate HasCountMutex(w: Worker) {
    w.TakeTask? || w.TookTask? || w.Drop? || w.UnlockDone? || w.Leave? || w.UnlockExit?
  }

  predicate ClientHasTaskMutex(c: Client) {
    c.RunEnqueue? || c.RunSignal? || c.RunUnlock?
    || c.DestroyClear? || c.DestroyStop? || c.DestroyBroadcast? || c.DestroyUnlock?
  }

  predicate ClientHasCountMutex(c: Client) {
    c.WaitTest? || c.WaitUnlock?
  }

  /** Mutual exclusion: whoever is inside a critical section owns its mutex. */
  ghost predicate Mutexes(s: Pool) {
    && Owned(HasTaskMutex, s.workers, s.taskOwner)
    && Owned(HasCountMutex, s.workers, s.countOwner)
    && (ClientHasTaskMutex(s.client) <==> s.taskOwner == ByClient)
    && (ClientHasCountMutex(s.client) <==> s.countOwner == ByClient)
  }

  ghost predicate Owned(has: Worker -> bool, ws: seq<Worker>, owner: Owner) {
    && (forall i | 0 <= i < |ws| :: has(ws[i]) <==> owner == ByWorker(i))
    && (owner.ByWorker? ==> owner.i < |ws|)
  }

  ghost predicate Counts(s: Pool) {
    && |s.workers| <= 255
    && s.working == Sum(s.workers, Counted)
    && s.numThreads == Sum(s.workers, Alive)
  }

  function Range(n: nat): (r: seq<nat>)
    ensures |r| == n && forall i | 0 <= i < n :: r[i] == i
  {
    seq(n, i => i)
  }

  /** Every submitted task is dequeued in order, waits in order, or was discarded; and a
      dequeued task is in the hands of exactly one worker, or finished exactly once. */
  ghost predicate Tasks(s: Pool) {
    && s.taken + s.queue + s.discarded == Range(s.submitted)
    && forall id: nat :: multiset(s.finished)[id] + Sum(s.workers, Holds(id)) == if id < |s.taken| then 1 else 0
  }

  predicate Stopped(c: Client) {
    c.DestroyBroadcast? || c.DestroyUnlock? || c.Freed?
    || ((c.WaitLock? || c.WaitTest? || c.WaitAsleep? || c.WaitUnlock?) && c.destroying)
  }

  ghost predicate Shutdown(s: Pool) {
    && (s.running <==> !Stopped(s.client))
    && (s.discarded != [] ==> !s.running || s.client.DestroyStop?)
    && (!s.running || s.client.DestroyStop? ==> s.queue == [])
    && (!s.running && !s.client.DestroyBroadcast? ==> NobodySleeps(s.workers))
    && (s.running ==> forall i | 0 <= i < |s.workers| :: !Exiting(s.workers[i]))
    && (forall i | 0 <= i < |s.workers| && (s.workers[i].LockCount? || s.workers[i].TakeTask?) ::
          s.queue != [] || !s.running)
  }

  predicate Exiting(w: Worker) {
    w.LockExit? || w.Leave? || w.UnlockExit? || w.Gone?
  }

  predicate Awake(ws: seq<Worker>, i: nat) {
    i < |ws| && ws[i] != Asleep(false)
  }

  /** No wakeup is lost. */
  ghost predicate Wakeups(s: Pool) {
    && (s.workers != [] && s.queue != [] && !s.client.RunSignal? ==> exists i :: Awake(s.workers, i))
    && (s.client.WaitAsleep? && !s.client.signalled ==> MustWait(s))
  }

  predicate Waiting(c: Client) {
    c.WaitLock? || c.WaitTest? || c.WaitAsleep? || c.WaitUnlock?
  }

  /** What the wait has established. */
  ghost predicate Waited(s: Pool) {
    && (Waiting(s.client) || s.client.Returned? ==> s.client.mark == s.submitted)
    && (s.client.WaitUnlock? || s.client.Returned? ==>
          s.queue == [] && forall id: nat | id < |s.taken| :: id in s.finished)
    && (s.client.WaitUnlock? && s.client.destroying ==> forall i | 0 <= i < |s.workers| :: s.workers[i] == Gone)
    && (s.client.Freed? ==> forall i | 0 <= i < |s.workers| :: s.workers[i] == Gone)
  }

  // ---- a worker's step keeps it ----

  /** What happens to a mutex when a worker goes on: nothing, or it takes a free one, or it
      gives its own back. */
  predicate Handed(had: bool, has: bool, before: Owner, after: Owner, i: nat) {
    if had == has then after == before
    else if has then before == Free && after == ByWorker(i)
    else after == Free
  }

  lemma WorkerMutexEffect(s: Pool, i: nat)
    requires WorkerEnabled(s, i)
    ensures var s', was := WorkerDo(s, i), s.workers[i];
      && |s'.workers| == |s.workers| && s'.workers == s.workers[i := s'.workers[i]]
      && Handed(HasTaskMutex(was), HasTaskMutex(s'.workers[i]), s.taskOwner, s'.taskOwner, i)
      && Handed(HasCountMutex(was), HasCountMutex(s'.workers[i]), s.countOwner, s'.countOwner, i)
      && (ClientHasTaskMutex(s'.client) <==> ClientHasTaskMutex(s.client))
      && (ClientHasCountMutex(s'.client) <==> ClientHasCountMutex(s.client))
  {}

  lemma WorkerMutexes(s: Pool, i: nat)
    requires Mutexes(s) && WorkerEnabled(s, i)
    ensures Mutexes(WorkerDo(s, i))
  {
    var s' := WorkerDo(s, i);
    WorkerMutexEffect(s, i);
  }

  lemma WorkerCounts(s: Pool, i: nat)
    requires Counts(s) && WorkerEnabled(s, i)
    ensures Counts(WorkerDo(s, i))
  {
    CountsFollow(s, WorkerDo(s, i), i);
  }

  lemma CountsFollow(s: Pool, s': Pool, i: nat)
    requires Counts(s) && i < |s.workers| && |s'.workers| == |s.workers| && s'.workers == s.workers[i := s'.workers[i]]
    requires if Counted(s'.workers[i]) == Counted(s.workers[i]) then s'.working == s.working
             else s'.working == Byte(s.working + Counted(s'.workers[i]) - Counted(s.workers[i]))
    requires if Alive(s'.workers[i]) == Alive(s.workers[i]) then s'.numThreads == s.numThreads
             else s'.numThreads == Byte(s.numThreads + Alive(s'.workers[i]) - Alive(s.workers[i]))
    ensures Counts(s')
  {
    SumUpdate(s.workers, i, s'.workers[i], Counted);
    SumUpdate(s.workers, i, s'.workers[i], Alive);
    SumBound(s'.workers, Counted);
    SumBound(s'.workers, Alive);
  }

  /** A worker's step that moves no task. */
  ghost predicate MovesNoTask(s: Pool, s': Pool, i: nat)
    requires i < |s.workers| && i < |s'.workers|
  {
    && s'.taken == s.taken && s'.queue == s.queue && s'.discarded == s.discarded && s'.finished == s.finished
    && forall id: nat :: Holds(id)(s'.workers[i]) == Holds(id)(s.workers[i])
  }

  lemma WorkerTaskEffect(s: Pool, i: nat)
    requires WorkerEnabled(s, i)
    ensures var s', was := WorkerDo(s, i), s.workers[i];
      && s'.submitted == s.submitted && |s'.workers| == |s.workers| && s'.workers == s.workers[i := s'.workers[i]]
      && if was.TakeTask? && s.queue != [] then
           s' == s.(working := s'.working, workers := s.workers[i := TookTask(Some(s.queue[0]))], queue := s.queue[1..],
               taken := s.taken + [s.queue[0]])
         else if was.Run? && was.task.Some? then
           s' == s.(finished := s.finished + [was.task.value], workers := s.workers[i := LockDone])
         else MovesNoTask(s, s', i)
  {}

  lemma TakenKeeps(s: Pool, s': Pool, i: nat)
    requires Tasks(s) && i < |s.workers| && s.workers[i].TakeTask? && s.queue != []
    requires s' == s.(working := s'.working, workers := s.workers[i := TookTask(Some(s.queue[0]))],
        queue := s.queue[1..], taken := s.taken + [s.queue[0]])
    ensures Tasks(s')
  {
    assert Range(s.submitted)[|s.taken|] == s.queue[0];
    forall id: nat
      ensures multiset(s'.finished)[id] + Sum(s'.workers, Holds(id)) == if id < |s'.taken| then 1 else 0
    {
      SumUpdate(s.workers, i, TookTask(Some(s.queue[0])), Holds(id));
    }
  }

  lemma FinishedKeeps(s: Pool, s': Pool, i: nat)
    requires Tasks(s) && i < |s.workers| && s.workers[i].Run? && s.workers[i].task.Some?
    requires s' == s.(finished := s.finished + [s.workers[i].task.value], workers := s.workers[i := LockDone])
    ensures Tasks(s')
  {
    forall id: nat
      ensures multiset(s'.finished)[id] + Sum(s'.workers, Holds(id)) == if id < |s'.taken| then 1 else 0
    {
      SumUpdate(s.workers, i, LockDone, Holds(id));
    }
  }

  lemma UnmovedKeeps(s: Pool, s': Pool, i: nat)
    requires Tasks(s) && i < |s.workers| && |s'.workers| == |s.workers| && s'.workers == s.workers[i := s'.workers[i]]
    requires s'.submitted == s.submitted && MovesNoTask(s, s', i)
    ensures Tasks(s')
  {
    forall id: nat
      ensures Sum(s'.workers, Holds(id)) == Sum(s.workers, Holds(id))
    {
      SumUpdate(s.workers, i, s'.workers[i], Holds(id));
    }
  }

  lemma WorkerTasks(s: Pool, i: nat)
    requires Tasks(s) && WorkerEnabled(s, i)
    ensures Tasks(WorkerDo(s, i))
  {
    WorkerTaskEffect(s, i);
    var s', was := WorkerDo(s, i), s.workers[i];
    if was.TakeTask? && s.queue != [] {
      TakenKeeps(s, s', i);
    } else if was.Run? && was.task.Some? {
      FinishedKeeps(s, s', i);
    } else {
      UnmovedKeeps(s, s', i);
    }
  }

  lemma WorkerShutdown(s: Pool, i: nat)
    requires Mutexes(s) && Shutdown(s) && WorkerEnabled(s, i)
    ensures Shutdown(WorkerDo(s, i))
  {
  }

  lemma WorkerWakeups(s: Pool, i: nat)
    requires Counts(s) && Shutdown(s) && Wakeups(s) && WorkerEnabled(s, i)
    ensures Wakeups(WorkerDo(s, i))
  {
    var s' := WorkerDo(s, i);
    WorkerCounts(s, i);
    SumAtLeast(s'.workers, i, Counted);
    if s'.workers[i] != Asleep(false) {
      assert Awake(s'.workers, i);
    }
  }

  lemma WorkerWaited(s: Pool, i: nat)
    requires Waited(s) && WorkerEnabled(s, i)
    ensures Waited(WorkerDo(s, i))
  {
  }

  // ---- a client's step keeps it ----

  lemma ClientMutexes(s: Pool)
    requires Mutexes(s) && ClientEnabled(s)
    ensures Mutexes(ClientDo(s))
  {
    var s' := ClientDo(s);
    forall j | 0 <= j < |s'.workers|
      ensures HasTaskMutex(s'.workers[j]) <==> s'.taskOwner == ByWorker(j)
      ensures HasCountMutex(s'.workers[j]) <==> s'.countOwner == ByWorker(j)
    {
      assert HasTaskMutex(s.workers[j]) <==> s.taskOwner == ByWorker(j);
      assert HasCountMutex(s.workers[j]) <==> s.countOwner == ByWorker(j);
    }
  }

  lemma ClientCounts(s: Pool)
    requires Counts(s) && ClientEnabled(s)
    ensures Counts(ClientDo(s))
  {
    SumPointwise(s.workers, WakeAll(s.workers), Counted);
    SumPointwise(s.workers, WakeAll(s.workers), Alive);
  }

  lemma ClientTasks(s: Pool)
    requires Tasks(s) && Shutdown(s) && ClientEnabled(s)
    ensures Tasks(ClientDo(s))
  {
    var s' := ClientDo(s);
    forall id: nat
      ensures Sum(s'.workers, Holds(id)) == Sum(s.workers, Holds(id))
    {
      SumPointwise(s.workers, WakeAll(s.workers), Holds(id));
    }
    if s.client.RunEnqueue? {
      assert s.discarded == [];
      assert Range(s.submitted + 1) == Range(s.submitted) + [s.submitted];
      assert s'.taken + s'.queue + s'.discarded == s.taken + s.queue + s.discarded + [s.submitted];
    } else if s.client.DestroyClear? {
      assert s.discarded == [];
    }
  }

  lemma ClientShutdown(s: Pool)
    requires Mutexes(s) && Shutdown(s) && ClientEnabled(s)
    ensures Shutdown(ClientDo(s))
  {
  }

  lemma ClientWakeups(s: Pool)
    requires Counts(s) && Shutdown(s) && Wakeups(s) && ClientEnabled(s)
    ensures Wakeups(ClientDo(s))
  {
    var s' := ClientDo(s);
    if s.client.RunSignal? && s.workers != [] {
      assert Awake(s'.workers, 0);
    }
    if s.workers != [] && s.queue != [] && !s.client.RunSignal? {
      var i :| Awake(s.workers, i);
      assert Awake(s'.workers, i);
    }
  }

  /** When the wait's test fails, nobody works and nobody carries a task. */
  lemma NobodyWorks(s: Pool)
    requires Mutexes(s) && Counts(s) && Tasks(s) && s.client.WaitTest? && !MustWait(s)
    ensures s.queue == [] && forall id: nat | id < |s.taken| :: id in s.finished
    ensures !s.running ==> forall i | 0 <= i < |s.workers| :: s.workers[i] == Gone
  {
    forall id: nat | id < |s.taken|
      ensures id in s.finished
    {
      if Sum(s.workers, Holds(id)) > 0 {
        var i := SumWitness(s.workers, Holds(id));
        SumAtLeast(s.workers, i, Counted);
      }
    }
    if !s.running {
      forall i | 0 <= i < |s.workers|
        ensures s.workers[i] == Gone
      {
        SumAtLeast(s.workers, i, Alive);
        assert HasCountMutex(s.workers[i]) <==> s.countOwner == ByWorker(i);
      }
    }
  }

  lemma ClientWaited(s: Pool)
    requires Mutexes(s) && Counts(s) && Tasks(s) && Shutdown(s) && Waited(s) && ClientEnabled(s)
    ensures Waited(ClientDo(s))
  {
    if s.client.WaitTest? && !MustWait(s) {
      NobodyWorks(s);
    }
  }

  // ---- the other steps keep it ----

  ghost predicate Inv(s: Pool) {
    Mutexes(s) && Counts(s) && Tasks(s) && Shutdown(s) && Wakeups(s) && Waited(s)
  }

  lemma WakeKeeps(s: Pool, i: nat, c: Client)
    requires Inv(s) && i < |s.workers| && s.workers[i] == Asleep(false)
    requires c == s.client || (s.client == RunSignal && c == RunUnlock)
    ensures Inv(s.(workers := s.workers[i := Asleep(true)], client := c))
  {
    var s' := s.(workers := s.workers[i := Asleep(true)], client := c);
    SumUpdate(s.workers, i, Asleep(true), Counted);
    SumUpdate(s.workers, i, Asleep(true), Alive);
    forall id: nat
      ensures Sum(s'.workers, Holds(id)) == Sum(s.workers, Holds(id))
    {
      SumUpdate(s.workers, i, Asleep(true), Holds(id));
    }
    assert Awake(s'.workers, i);
    assert Mutexes(s') && Counts(s') && Tasks(s') && Shutdown(s') && Wakeups(s') && Waited(s');
  }

  lemma StartKeeps(s: Pool, step: Step)
    requires Inv(s) && Enabled(s, step)
    requires step.StartRun? || step.StartWait? || step.StartDestroy? || step.SpuriousClient?
    ensures Inv(Do(s, step))
  {
    var s' := Do(s, step);
    assert Mutexes(s') && Counts(s') && Tasks(s') && Shutdown(s') && Wakeups(s') && Waited(s');
  }

  lemma StepKeeps(s: Pool, step: Step)
    requires Inv(s) && Enabled(s, step)
    ensures Inv(Do(s, step))
  {
    match step
    case WorkerStep(i) =>
      WorkerMutexes(s, i); WorkerCounts(s, i); WorkerTasks(s, i);
      WorkerShutdown(s, i); WorkerWakeups(s, i); WorkerWaited(s, i);
    case ClientStep =>
      ClientMutexes(s); ClientCounts(s); ClientTasks(s);
      ClientShutdown(s); ClientWakeups(s); ClientWaited(s);
    case SignalTask(i) => WakeKeeps(s, i, RunUnlock);
    case SpuriousWorker(i) => WakeKeeps(s, i, s.client);
    case _ => StartKeeps(s, step);
  }

  lemma {:induction false} InitSums(ws: seq<Worker>)
    requires forall i | 0 <= i < |ws| :: ws[i] == Top
    ensures Sum(ws, Counted) == 0 && Sum(ws, Alive) == |ws|
    ensures forall id: nat :: Sum(ws, Holds(id)) == 0
  {
    if ws != [] {
      InitSums(ws[1..]);
      forall id: nat ensures Sum(ws, Holds(id)) == 0 {
        assert Sum(ws[1..], Holds(id)) == 0;
      }
    }
  }

  lemma {:induction false} RunKeeps(run: seq<Pool>, steps: seq<Step>, i: nat)
    requires IsRun(run, steps) && i < |run|
    ensures Inv(run[i])
  {
    if i == 0 {
      InitSums(run[0].workers);
    } else {
      RunKeeps(run, steps, i - 1);
      StepKeeps(run[i - 1], steps[i - 1]);
    }
  }

  // ---- what the pool promises ----

  /** When ThreadPool_wait returns, every task whose ThreadPool_run returned before the wait
      began has been executed, exactly once, and none was discarded. */
  lemma WaitMeansDone(run: seq<Pool>, steps: seq<Step>, i: nat)
    requires IsRun(run, steps) && i < |run| && run[i].client.Returned?
    ensures var s := run[i];
      && s.client.mark == s.submitted == |s.taken| && s.discarded == []
      && forall id: nat | id < s.submitted :: multiset(s.finished)[id] == 1
  {
    var s := run[i];
    RunKeeps(run, steps, i);
    assert |s.taken + s.queue + s.discarded| == s.submitted;
    forall id: nat | id < s.submitted
      ensures multiset(s.finished)[id] == 1
    {
      assert id in s.finished;
      assert multiset(s.finished)[id] + Sum(s.workers, Holds(id)) == 1;
    }
  }

  lemma {:induction false} SubmittedGrows(run: seq<Pool>, steps: seq<Step>, i: nat, k: nat)
    requires IsRun(run, steps) && i <= k < |run|
    ensures run[i].submitted <= run[k].submitted
    decreases k
  {
    if i < k {
      SubmittedGrows(run, steps, i, k - 1);
    }
  }

  /** Whatever had been submitted at any moment before a wait returns, at its beginning in
      particular, has been executed exactly once when it returns. */
  lemma WaitCovers(run: seq<Pool>, steps: seq<Step>, i: nat, k: nat)
    requires IsRun(run, steps) && i <= k < |run| && run[k].client.Returned?
    ensures forall id: nat | id < run[i].submitted :: multiset(run[k].finished)[id] == 1
  {
    SubmittedGrows(run, steps, i, k);
    WaitMeansDone(run, steps, k);
  }

  lemma {:induction false} RangeCount(n: nat, id: nat)
    ensures multiset(Range(n))[id] == if id < n then 1 else 0
  {
    if n > 0 {
      RangeCount(n - 1, id);
      assert Range(n) == Range(n - 1) + [n - 1];
    } else {
      assert Range(0) == [];
    }
  }

  /** At every moment every submitted task is in exactly one place: in the queue, in the
      hands of one worker (which is counted as working), executed once, or discarded by
      destroy; and tasks have been dequeued in the order they were submitted. */
  lemma EachTaskInOnePlace(run: seq<Pool>, steps: seq<Step>, i: nat, id: nat)
    requires IsRun(run, steps) && i < |run|
    ensures var s := run[i];
      && s.taken == Range(|s.taken|)
      && multiset(s.queue)[id] + multiset(s.discarded)[id] + multiset(s.finished)[id] + Sum(s.workers, Holds(id))
         == (if id < s.submitted then 1 else 0)
    ensures forall j | 0 <= j < |run[i].workers| && Holds(id)(run[i].workers[j]) > 0 :: IsCounted(run[i].workers[j])
    ensures run[i].working == Sum(run[i].workers, Counted)
  {
    var s := run[i];
    RunKeeps(run, steps, i);
    var all := s.taken + s.queue + s.discarded;
    forall k | 0 <= k < |s.taken|
      ensures s.taken[k] == k
    {
      assert s.taken[k] == all[k] == Range(s.submitted)[k];
    }
    RangeCount(s.submitted, id);
    RangeCount(|s.taken|, id);
    assert multiset(all) == multiset(s.taken) + multiset(s.queue) + multiset(s.discarded);
  }

  /** No wakeup is lost: tasks in the queue mean a worker that is awake or about to be
      signalled, and a client asleep in the wait still has something to wait for. */
  lemma NoLostWakeup(run: seq<Pool>, steps: seq<Step>, i: nat)
    requires IsRun(run, steps) && i < |run|
    ensures var s := run[i];
      && (s.queue != [] ==> s.workers == [] || s.client == RunSignal || exists j :: Awake(s.workers, j))
      && (s.client.WaitAsleep? ==>
            || s.client.signalled || s.queue != []
            || (exists j :: 0 <= j < |s.workers| && IsCounted(s.workers[j]))
            || (!s.running && exists j :: 0 <= j < |s.workers| && !Exited(s.workers[j])))
  {
    var s := run[i];
    RunKeeps(run, steps, i);
    if s.client.WaitAsleep? && !s.client.signalled && s.queue == [] {
      if s.working > 0 {
        var j := SumWitness(s.workers, Counted);
      } else {
        var j := SumWitness(s.workers, Alive);
        assert !Exited(s.workers[j]);
      }
    }
  }

  predicate Exited(w: Worker) {
    w.UnlockExit? || w.Gone?
  }

  // ---- what the three calls do ----

  predicate InDestroy(c: Client) {
    c.DestroyLock? || c.DestroyClear? || c.DestroyStop? || c.DestroyBroadcast? || c.DestroyUnlock?
    || (Waiting(c) && c.destroying) || c.Freed?
  }

  /** The calls of the client: where it stands in one, and what has been submitted since. */
  ghost predicate InCall(start: Step, c: Client, added: int) {
    match start
    case StartRun =>
      if c.RunLock? || c.RunEnqueue? then added == 0 else added == 1 && (c.RunSignal? || c.RunUnlock? || c.Idle?)
    case StartWait => added == 0 && ((Waiting(c) && !c.destroying) || c.Returned? || c.Idle?)
    case StartDestroy => added == 0 && InDestroy(c)
    case _ => false
  }

  predicate Starts(step: Step) { step.StartRun? || step.StartWait? || step.StartDestroy? }

  lemma InCallStarts(s: Pool, start: Step)
    requires Enabled(s, start) && Starts(start)
    ensures InCall(start, Do(s, start).client, Do(s, start).submitted - s.submitted)
  {}

  lemma InCallKeeps(start: Step, n: nat, s: Pool, step: Step)
    requires Enabled(s, step) && InCall(start, s.client, s.submitted - n)
    requires start.StartDestroy? || !Starts(step)
    ensures InCall(start, Do(s, step).client, Do(s, step).submitted - n)
  {
    if step.WorkerStep? { WorkerTaskEffect(s, step.i); }
  }

  lemma {:induction false} InCallRun(run: seq<Pool>, steps: seq<Step>, h: nat, i: nat)
    requires IsRun(run, steps) && h < i < |run| && Starts(steps[h])
    requires steps[h].StartDestroy? || forall k | h < k < i :: !Starts(steps[k])
    ensures InCall(steps[h], run[i].client, run[i].submitted - run[h].submitted)
  {
    if i == h + 1 {
      InCallStarts(run[h], steps[h]);
    } else {
      InCallRun(run, steps, h, i - 1);
      InCallKeeps(steps[h], run[h].submitted, run[i - 1], steps[i - 1]);
    }
  }

  /** A call of ThreadPool_run that is over has submitted one task, which is the last of those
      that are waiting or have been dequeued. */
  lemma RunSubmits(run: seq<Pool>, steps: seq<Step>, h: nat, i: nat)
    requires IsRun(run, steps) && h < i < |run| && steps[h] == StartRun
    requires (forall k | h < k < i :: !Starts(steps[k])) && run[i].client == Idle
    ensures run[i].submitted == run[h].submitted + 1
    ensures var all := run[i].taken + run[i].queue; all != [] && all[|all| - 1] == run[h].submitted
  {
    InCallRun(run, steps, h, i);
    RunKeeps(run, steps, i);
    var s := run[i];
    assert s.taken + s.queue + [] == s.taken + s.queue;
    assert s.taken + s.queue == Range(s.submitted);
    assert Range(s.submitted)[s.submitted - 1] == run[h].submitted;
  }

  /** ThreadPool_destroy is the last call: nothing is submitted any more, and the client never
      returns from it but to a pool that has been freed. */
  lemma DestroyIsLast(run: seq<Pool>, steps: seq<Step>, h: nat, i: nat)
    requires IsRun(run, steps) && h < i < |run| && steps[h] == StartDestroy
    ensures var s := run[i]; InDestroy(s.client) && s.submitted == run[h].submitted
    ensures !Enabled(run[i], StartRun) && !Enabled(run[i], StartWait) && !Enabled(run[i], StartDestroy)
  {
    InCallRun(run, steps, h, i);
  }

  /** ThreadPool_destroy frees the pool only after every worker has made its last access; then
      each task has been executed once or was discarded, the last ones that were submitted. */
  lemma FreedAfterWorkersAreGone(run: seq<Pool>, steps: seq<Step>, i: nat)
    requires IsRun(run, steps) && i < |run| && run[i].client.Freed?
    ensures forall j | 0 <= j < |run[i].workers| :: run[i].workers[j] == Gone
    ensures run[i].taskOwner == Free && run[i].countOwner == Free
    ensures forall id: nat :: multiset(run[i].finished)[id] == if id < |run[i].taken| then 1 else 0
    ensures var s := run[i];
      |s.taken| <= s.submitted && |s.discarded| == s.submitted - |s.taken|
      && forall k | 0 <= k < |s.discarded| :: s.discarded[k] == |s.taken| + k
  {
    var s := run[i];
    RunKeeps(run, steps, i);
    forall id: nat
      ensures Sum(s.workers, Holds(id)) == 0
    {
      if Sum(s.workers, Holds(id)) > 0 { var j := SumWitness(s.workers, Holds(id)); }
    }
    var all := s.taken + s.queue + s.discarded;
    forall k | 0 <= k < |s.discarded|
      ensures s.discarded[k] == |s.taken| + k
    {
      assert s.discarded[k] == all[|s.taken| + k];
    }
  }

  // ---- the pool cannot get stuck ----

  predicate Progress(step: Step) {
    step.WorkerStep? || step.ClientStep? || step.SignalTask?
  }

  lemma CountHolderCanStep(s: Pool)
    requires Inv(s) && s.countOwner.ByWorker?
    ensures WorkerEnabled(s, s.countOwner.i)
  {
    assert HasCountMutex(s.workers[s.countOwner.i]);
  }

  lemma TaskHolderCanStep(s: Pool) returns (j: nat)
    requires Inv(s) && s.taskOwner.ByWorker? && s.countOwner != ByClient
    ensures WorkerEnabled(s, j)
  {
    j := s.taskOwner.i;
    assert HasTaskMutex(s.workers[j]);
    if s.workers[j].LockCount? && s.countOwner.ByWorker? {
      CountHolderCanStep(s);
      j := s.countOwner.i;
    }
  }

  /** While the client holds no mutex, a worker that is awake and not gone means that some
      worker can move: itself, or the one whose mutex it waits for. */
  lemma AwakeWorkerMeansStep(s: Pool, i: nat) returns (j: nat)
    requires Inv(s) && s.taskOwner != ByClient && s.countOwner != ByClient
    requires Awake(s.workers, i) && s.workers[i] != Gone
    ensures WorkerEnabled(s, j)
  {
    j := i;
    if !WorkerEnabled(s, i) {
      if s.workers[i].LockTask? || s.workers[i].Asleep? {
        j := TaskHolderCanStep(s);
      } else {
        CountHolderCanStep(s);
        j := s.countOwner.i;
      }
    }
  }

  lemma SleepingClientMeansWorkerStep(s: Pool) returns (j: nat)
    requires Inv(s) && s.workers != [] && s.client.WaitAsleep? && !s.client.signalled
    ensures WorkerEnabled(s, j)
  {
    var i: nat;
    if s.queue != [] {
      i :| Awake(s.workers, i);
      assert s.running;
    } else if s.working > 0 {
      i := SumWitness(s.workers, Counted);
    } else {
      i := SumWitness(s.workers, Alive);
    }
    j := AwakeWorkerMeansStep(s, i);
  }

  lemma ClientMeansStep(s: Pool) returns (step: Step)
    requires Inv(s) && s.workers != [] && !s.client.Idle? && !s.client.Freed?
    ensures Enabled(s, step) && Progress(step)
  {
    if ClientEnabled(s) {
      step := ClientStep;
    } else if s.client.RunSignal? {
      var i: nat :| i < |s.workers| && s.workers[i] == Asleep(false);
      step := SignalTask(i);
    } else if s.client.WaitAsleep? && !s.client.signalled {
      var j := SleepingClientMeansWorkerStep(s);
      step := WorkerStep(j);
    } else if s.client.RunLock? || s.client.DestroyLock? {
      var j := TaskHolderCanStep(s);
      step := WorkerStep(j);
    } else {
      CountHolderCanStep(s);
      step := WorkerStep(s.countOwner.i);
    }
  }

  /** Deadlock freedom: while the client of a pool with workers is inside run, wait or destroy,
      some thread can take a step that is not a spurious wakeup. */
  lemma NeverStuck(run: seq<Pool>, steps: seq<Step>, i: nat) returns (step: Step)
    requires IsRun(run, steps) && i < |run| && !run[i].client.Idle? && !run[i].client.Freed?
    requires run[i].workers != []
    ensures Enabled(run[i], step) && Progress(step)
  {
    RunKeeps(run, steps, i);
    step := ClientMeansStep(run[i]);
  }

  lemma {:induction false} NothingFinished(run: seq<Pool>, steps: seq<Step>, i: nat)
    requires IsRun(run, steps) && i < |run| && run[0].workers == []
    ensures run[i].workers == [] && run[i].finished == []
  {
    if i > 0 { NothingFinished(run, steps, i - 1); }
  }

  /** Without workers a wait returns only if nothing has been submitted. */
  lemma NoWorkersNoReturn(run: seq<Pool>, steps: seq<Step>, i: nat)
    requires IsRun(run, steps) && i < |run| && run[0].workers == [] && run[i].client.Returned?
    ensures run[i].submitted == 0
  {
    NothingFinished(run, steps, i);
    var first: nat := 0;
    assert multiset(run[i].finished)[first] == 0;
    WaitMeansDone(run, steps, i);
  }

  // ---- and a wait always ends ----

  /** How far a worker is from sleeping, exiting, or taking another task. */
  function Rank(running: bool): Worker -> nat {
    (w: Worker) =>
      match w
      case LockTask => if running then 6 else 17
      case Asleep(signalled) => if !signalled then 0 else if running then 6 else 17
      case TestQueue => if running then 4 else 16
      case LockCount => if running then 3 else 15
      case TakeTask => if running then 2 else 14
      case TookTask(_) => 13
      case UnlockTask(_) => 12
      case Run(_) => 11
      case LockDone => 10
      case Drop => 9
      case UnlockDone => 8
      case Top => 7
      case LockExit => 3
      case Leave => 2
      case UnlockExit => 1
      case Gone => 0
  }

  function ClientRank(c: Client): nat {
    match c
    case WaitLock(_, _) => 4
    case WaitAsleep(_, _, signalled) => if signalled then 4 else 0
    case WaitTest(_, _) => 3
    case WaitUnlock(_, _) => 1
    case _ => 0
  }

  function Measure(s: Pool): nat {
    5 * Sum(s.workers, Rank(s.running)) + 60 * |s.queue| + ClientRank(s.client)
  }

  lemma WorkerStepCosts(s: Pool, i: nat)
    requires Shutdown(s) && WorkerEnabled(s, i)
    ensures var s', rank := WorkerDo(s, i), Rank(s.running);
      && |s'.workers| == |s.workers| && s'.workers == s.workers[i := s'.workers[i]] && s'.running == s.running
      && 5 * rank(s'.workers[i]) + 60 * |s'.queue| + ClientRank(s'.client)
         < 5 * rank(s.workers[i]) + 60 * |s.queue| + ClientRank(s.client)
  {
  }

  lemma StepsCostMeasure(s: Pool, step: Step)
    requires Inv(s) && Waiting(s.client) && Enabled(s, step) && Progress(step)
    ensures Measure(Do(s, step)) < Measure(s)
  {
    if step.WorkerStep? {
      var i, s' := step.i, Do(s, step);
      WorkerStepCosts(s, i);
      SumUpdate(s.workers, i, s'.workers[i], Rank(s.running));
    } else {
      assert step.ClientStep?;
      assert Do(s, step).workers == s.workers;
    }
  }

  const SPURIOUS_COST: nat := 85

  /** A sleeper that wakes for no reason has a longer way to go, but not by much. */
  lemma SpuriousCosts(s: Pool, step: Step)
    requires Waiting(s.client) && Enabled(s, step) && !Progress(step)
    ensures Measure(Do(s, step)) <= Measure(s) + SPURIOUS_COST
  {
    if step.SpuriousWorker? {
      SumUpdate(s.workers, step.i, Asleep(true), Rank(s.running));
    } else {
      assert step.SpuriousClient?;
    }
  }

  /** A run that stays inside one wait. */
  ghost predicate WaitRun(run: seq<Pool>, steps: seq<Step>) {
    && |run| == |steps| + 1
    && Inv(run[0])
    && (forall i | 0 <= i < |run| :: Waiting(run[i].client))
    && forall i | 0 <= i < |steps| :: Enabled(run[i], steps[i]) && run[i + 1] == Do(run[i], steps[i])
  }

  /** How many of the steps are spurious wakeups. */
  function Spurious(steps: seq<Step>): nat {
    if steps == [] then 0 else (if Progress(steps[0]) then 0 else 1) + Spurious(steps[1..])
  }

  /** Whatever the scheduler does, a wait ends unless it is woken for no reason for ever: with k
      spurious wakeups it cannot make more steps than the measure of the state it starts in and
      a constant times k, and NeverStuck says that it can always make another until the wait is
      over. */
  lemma {:induction false} WaitsEnd(run: seq<Pool>, steps: seq<Step>)
    requires WaitRun(run, steps)
    ensures |steps| <= Measure(run[0]) + (SPURIOUS_COST + 1) * Spurious(steps)
    decreases |steps|
  {
    if steps != [] {
      StepKeeps(run[0], steps[0]);
      if Progress(steps[0]) { StepsCostMeasure(run[0], steps[0]); } else { SpuriousCosts(run[0], steps[0]); }
      var run', steps' := run[1..], steps[1..];
      assert forall i | 0 <= i < |steps'| :: run'[i] == run[i + 1] && steps'[i] == steps[i + 1];
      WaitsEnd(run', steps');
    }
  }
}
