/** Why a pool has to have at most 255 threads: with more of them the uint8_t count of working
    threads passes through zero while tasks are being executed, and a wait returns too early. */
module PoolSize {
  import opened Options
  import opened ThreadPool

  /** A run of a pool with any number of threads. */
  ghost predicate IsAnyRun(run: seq<Pool>, steps: seq<Step>) {
    && |run| == |steps| + 1
    && Fresh(run[0])
    && forall i | 0 <= i < |steps| :: Enabled(run[i], steps[i]) && run[i + 1] == Do(run[i], steps[i])
  }

  /** Every submitted task has been executed once. */
  ghost predicate AllDone(s: Pool) {
    forall id: nat | id < s.submitted :: multiset(s.finished)[id] == 1
  }

  /** Whenever a wait returns in a pool of n threads, all tasks are done. */
  ghost predicate WaitIsSafe(n: nat) {
    forall run: seq<Pool>, steps: seq<Step>, i: nat ::
      IsAnyRun(run, steps) && |run[0].workers| == n && i < |run| && run[i].client.Returned? ==> AllDone(run[i])
  }

  ghost function Last(run: seq<Pool>): Pool
    requires run != []
  {
    run[|run| - 1]
  }

  lemma Extend(run: seq<Pool>, steps: seq<Step>, step: Step) returns (run': seq<Pool>, steps': seq<Step>)
    requires IsAnyRun(run, steps) && Enabled(Last(run), step)
    ensures IsAnyRun(run', steps') && run'[0] == run[0] && Last(run') == Do(Last(run), step)
  {
    run', steps' := run + [Do(Last(run), step)], steps + [step];
  }

  /** The client submits a task. */
  lemma Submit(run: seq<Pool>, steps: seq<Step>) returns (run': seq<Pool>, steps': seq<Step>)
    requires IsAnyRun(run, steps) && Last(run).client == Idle && Last(run).taskOwner == Free
    requires NobodySleeps(Last(run).workers)
    ensures IsAnyRun(run', steps') && run'[0] == run[0]
    ensures var s := Last(run); Last(run') == s.(queue := s.queue + [s.submitted], submitted := s.submitted + 1)
  {
    run', steps' := Extend(run, steps, StartRun);
    run', steps' := Extend(run', steps', ClientStep);
    run', steps' := Extend(run', steps', ClientStep);
    run', steps' := Extend(run', steps', ClientStep);
    run', steps' := Extend(run', steps', ClientStep);
  }

  /** A worker gets as far as asking for a task. */
  lemma Approach(run: seq<Pool>, steps: seq<Step>, m: nat) returns (run': seq<Pool>, steps': seq<Step>)
    requires IsAnyRun(run, steps) && m < |Last(run).workers| && Last(run).workers[m] == Top && Last(run).running
    requires Last(run).taskOwner == Free && Last(run).countOwner == Free && Last(run).queue != []
    ensures IsAnyRun(run', steps') && run'[0] == run[0]
    ensures var s := Last(run);
      Last(run') == s.(taskOwner := ByWorker(m), countOwner := ByWorker(m), workers := s.workers[m := TakeTask])
  {
    run', steps' := Extend(run, steps, WorkerStep(m));
    run', steps' := Extend(run', steps', WorkerStep(m));
    run', steps' := Extend(run', steps', WorkerStep(m));
    run', steps' := Extend(run', steps', WorkerStep(m));
  }

  /** And as far as executing it. */
  lemma TakeUp(run: seq<Pool>, steps: seq<Step>, m: nat) returns (run': seq<Pool>, steps': seq<Step>)
    requires IsAnyRun(run, steps) && m < |Last(run).workers| && Last(run).workers[m] == TakeTask
    requires Last(run).queue != []
    ensures IsAnyRun(run', steps') && run'[0] == run[0]
    ensures var s := Last(run);
      Last(run') == s.(taskOwner := Free, countOwner := Free, working := Byte(s.working + 1), queue := s.queue[1..],
                       taken := s.taken + [s.queue[0]], workers := s.workers[m := Run(Some(s.queue[0]))])
  {
    run', steps' := Extend(run, steps, WorkerStep(m));
    run', steps' := Extend(run', steps', WorkerStep(m));
    run', steps' := Extend(run', steps', WorkerStep(m));
  }

  /** The first `m` workers are executing a task each, and nothing is finished. */
  ghost predicate Busy(s: Pool, m: nat) {
    && m <= |s.workers| && s.running && s.client == Idle && s.taskOwner == Free && s.countOwner == Free
    && s.queue == [] && s.submitted == m && s.finished == [] && s.working == Byte(m)
    && (forall i | 0 <= i < m :: s.workers[i].Run?)
    && (forall i | m <= i < |s.workers| :: s.workers[i] == Top)
  }

  lemma OneMoreBusy(run: seq<Pool>, steps: seq<Step>, m: nat) returns (run': seq<Pool>, steps': seq<Step>)
    requires IsAnyRun(run, steps) && Busy(Last(run), m) && m < |Last(run).workers|
    ensures IsAnyRun(run', steps') && run'[0] == run[0] && Busy(Last(run'), m + 1)
    ensures |Last(run').workers| == |Last(run).workers|
  {
    run', steps' := Submit(run, steps);
    run', steps' := Approach(run', steps', m);
    run', steps' := TakeUp(run', steps', m);
  }

  /** A wait that begins when the count of working threads has come round to zero. */
  lemma EarlyReturn(run: seq<Pool>, steps: seq<Step>) returns (run': seq<Pool>, steps': seq<Step>)
    requires IsAnyRun(run, steps) && Busy(Last(run), 256)
    ensures IsAnyRun(run', steps') && run'[0] == run[0] && Last(run').client.Returned? && !AllDone(Last(run'))
  {
    run', steps' := Extend(run, steps, StartWait);
    run', steps' := Extend(run', steps', ClientStep);
    assert !MustWait(Last(run'));
    run', steps' := Extend(run', steps', ClientStep);
    run', steps' := Extend(run', steps', ClientStep);
    var first: nat := 0;
    assert multiset(Last(run').finished)[first] == 0;
  }

  lemma TooManyThreads(n: nat) returns (run: seq<Pool>, steps: seq<Step>)
    requires n > 255
    ensures IsAnyRun(run, steps) && |run[0].workers| == n
    ensures Last(run).client.Returned? && !AllDone(Last(run))
  {
    run := [Pool(n, 0, true, Free, Free, [], seq(n, _ => Top), Idle, 0, [], [], []).(numThreads := Byte(n))];
    steps := [];
    var m := 0;
    while m < 256
      invariant m <= 256 && IsAnyRun(run, steps) && Busy(Last(run), m) && |Last(run).workers| == |run[0].workers| == n
    {
      run, steps := OneMoreBusy(run, steps, m);
      m := m + 1;
    }
    run, steps := EarlyReturn(run, steps);
  }

  /** What ThreadPool_wait is for, in every run of a pool of n threads, if and only if the counters
      can hold n. */
  lemma WaitIsSafeIff(n: nat)
    ensures WaitIsSafe(n) <==> n <= 255
  {
    if n <= 255 {
      forall run: seq<Pool>, steps: seq<Step>, i: nat |
        IsAnyRun(run, steps) && |run[0].workers| == n && i < |run| && run[i].client.Returned?
        ensures AllDone(run[i])
      {
        WaitMeansDone(run, steps, i);
      }
    } else {
      var run, steps := TooManyThreads(n);
      assert !AllDone(run[|run| - 1]);
    }
  }
}
