/**
 * When is a queued job taken? A worker waits before it looks at the queue, so that depends on who is
 * past the wait and on which signals are still to come.
 */
module ThreadPoolProgress {
  import opened Optional
  import Queue
  import opened ThreadPool

  // ----- The condition -----

  /** The wait has been signalled, and the queue has not been looked at, or a job is about to be popped. */
  predicate PastWait(w: Worker) {
    w.Woken? || w.AtPeek? || w.AtPop?
  }

  predicate AtQueue(w: Worker) {
    w.AtPeek? || w.AtPop?
  }

  /** On the way into the wait; the flag is not tested again before it. */
  predicate BeforeWait(w: Worker) {
    w.AtLock? || w.Holding?
  }

  /** On the way to the next test of the flag. */
  predicate Returning(w: Worker) {
    w.AtLoop? || w.AtUnlock? || w.Executing?
  }

  /** A signal is still ahead in add_work. */
  predicate WillSignal(s: Submitter) {
    s.WantsLock? || s.AtPush? || s.AtSignal?
  }

  ghost predicate SomeWorker(p: Pool, at: Worker -> bool) {
    exists w | 0 <= w < |p.workers| :: at(p.workers[w])
  }

  ghost predicate SomeSubmitter(p: Pool, at: Submitter -> bool) {
    exists s | 0 <= s < |p.submitters| :: at(p.submitters[s])
  }

  ghost predicate Asking(p: Pool) {
    SomeSubmitter(p, (s: Submitter) => s.WantsLock?)
  }

  /**
   * A worker is past the wait; or one is in it with a signal ahead; or one can get into it before a
   * signal ahead is sent. A submitter that holds the mutex leaves no time for that, one that still
   * asks for it does, and so does the destructor.
   */
  ghost predicate CanTake(p: Pool) {
    || SomeWorker(p, PastWait)
    || (SomeWorker(p, (w: Worker) => w.Waiting?) && (p.stopSignals > 0 || SomeSubmitter(p, WillSignal)))
    || (SomeWorker(p, BeforeWait) && (p.stopSignals > 0 || Asking(p)))
    || (p.active && SomeWorker(p, Returning) && Asking(p))
  }

  // ----- Runs of what is already under way -----

  /** No spurious wakeup, no new submission, no shutdown. */
  predicate Quiet(step: Step) {
    !step.Spurious? && !step.Submit? && !step.Stop?
  }

  ghost predicate QuietRun(p: Pool, steps: seq<Step>, q: Pool) {
    Run(p, steps, q) && forall i | 0 <= i < |steps| :: Quiet(steps[i])
  }

  /** From p to q exactly the job at the head of p's queue has been taken. */
  predicate TakesHead(p: Pool, q: Pool) {
    && p.queue != [] && |q.taken| == |p.taken| + 1
    && q.taken[..|p.taken|] == p.taken && q.taken[|p.taken|].1 == p.queue[0]
  }

  ghost predicate Takes(p: Pool) {
    exists steps, q :: QuietRun(p, steps, q) && TakesHead(p, q)
  }

  /** The mutex is held by a thread there is, and the destructor signals only after clearing the flag. */
  ghost predicate Live(p: Pool) {
    && (p.stopSignals > 0 ==> !p.active)
    && match p.lock
       case None => true
       case Some(ByWorker(w)) => w < |p.workers|
       case Some(BySubmitter(s)) => s < |p.submitters|
  }

  ghost predicate Ok(p: Pool) {
    Inv(p) && Live(p)
  }

  lemma StepKeepsOk(p: Pool, step: Step)
    requires Ok(p) && Enabled(p, step)
    ensures Ok(Apply(p, step))
  {
    StepKeepsInv(p, step);
    StepKeepsLive(p, step);
  }

  lemma StepKeepsLive(p: Pool, step: Step)
    requires Shaped(p) && Live(p) && Enabled(p, step)
    ensures Live(Apply(p, step))
  {
  }

  lemma {:induction false} RunKeepsOk(p: Pool, steps: seq<Step>, q: Pool)
    requires Ok(p) && Run(p, steps, q)
    ensures Ok(q)
    decreases |steps|
  {
    if steps != [] {
      StepKeepsOk(p, steps[0]);
      RunKeepsOk(Apply(p, steps[0]), steps[1..], q);
    }
  }

  lemma ReachableOk(workers: nat, submitters: nat, p: Pool)
    requires Reachable(workers, submitters, p)
    ensures Ok(p)
  {
    var steps :| Run(Initial(workers, submitters), steps, p);
    InitialInv(workers, submitters);
    RunKeepsOk(Initial(workers, submitters), steps, p);
  }

  // ----- Without the condition nothing is ever taken -----

  lemma StuckWorkerStep(p: Pool, step: Step)
    requires Ok(p) && !CanTake(p) && Enabled(p, step) && Quiet(step) && OfWorker(step)
    ensures !CanTake(Apply(p, step)) && Apply(p, step).taken == p.taken
  {
  }

  lemma StuckOtherStep(p: Pool, step: Step)
    requires Ok(p) && !CanTake(p) && Enabled(p, step) && Quiet(step) && !OfWorker(step)
    ensures !CanTake(Apply(p, step)) && Apply(p, step).taken == p.taken
  {
  }

  lemma {:induction false} StuckRun(p: Pool, steps: seq<Step>, q: Pool)
    requires Ok(p) && !CanTake(p) && QuietRun(p, steps, q)
    ensures !CanTake(q) && q.taken == p.taken
    decreases |steps|
  {
    if steps != [] {
      assert Quiet(steps[0]);
      StepKeepsOk(p, steps[0]);
      if OfWorker(steps[0]) {
        StuckWorkerStep(p, steps[0]);
      } else {
        StuckOtherStep(p, steps[0]);
      }
      StuckRun(Apply(p, steps[0]), steps[1..], q);
    }
  }

  // ----- With it some run takes the next job -----

  /** One step of such a run, before the job is popped. */
  lemma Go(p: Pool, step: Step) returns (q: Pool)
    requires Ok(p) && p.queue != [] && Enabled(p, step) && Quiet(step) && !step.Pop?
    ensures q == Apply(p, step) && Ok(q) && q.queue != [] && (Takes(q) ==> Takes(p))
  {
    q := Apply(p, step);
    StepKeepsOk(p, step);
    QueueKeepsHead(p, step);
    if Takes(q) {
      var steps, r :| QuietRun(q, steps, r) && TakesHead(q, r);
      var all := [step] + steps;
      assert all[1..] == steps;
      assert QuietRun(p, all, r);
    }
  }

  lemma QueueKeepsHead(p: Pool, step: Step)
    requires Shaped(p) && p.queue != [] && Enabled(p, step) && !step.Pop?
    ensures var q := Apply(p, step); q.queue != [] && q.queue[0] == p.queue[0] && q.taken == p.taken
  {
  }

  lemma FromPop(p: Pool, w: nat)
    requires Ok(p) && p.queue != [] && w < |p.workers| && p.workers[w].AtPop?
    ensures Takes(p)
  {
    assert WorkerOk(p, w);
    var q := Apply(p, Pop(w));
    assert [Pop(w)][1..] == [];
    assert Run(q, [], q);
    assert QuietRun(p, [Pop(w)], q);
  }

  lemma FromPeek(p: Pool, w: nat)
    requires Ok(p) && p.queue != [] && w < |p.workers| && p.workers[w].AtPeek?
    ensures Takes(p)
  {
    var q := Go(p, Peek(w));
    FromPop(q, w);
  }

  /** How many steps the thread that holds the mutex is from releasing it. */
  function ToRelease(p: Pool): nat {
    match p.lock
    case None => 0
    case Some(ByWorker(w)) => 1
    case Some(BySubmitter(s)) =>
      if s >= |p.submitters| then 0
      else if p.submitters[s].AtPush? then 3
      else if p.submitters[s].AtSignal? then 2
      else 1
  }

  /** Only the holder of the mutex has moved, and perhaps one waiting worker has been woken. */
  ghost predicate OnlyHolderMoved(p: Pool, q: Pool) {
    && |q.workers| == |p.workers| && |q.submitters| == |p.submitters|
    && q.active == p.active && q.stopSignals == p.stopSignals
    && (forall w | 0 <= w < |p.workers| && !WorkerInside(p.workers[w]) ::
          q.workers[w] == p.workers[w] || (p.workers[w].Waiting? && q.workers[w].Woken?))
    && (forall s | 0 <= s < |p.submitters| && !SubmitterInside(p.submitters[s]) :: q.submitters[s] == p.submitters[s])
  }

  lemma Waiter(p: Pool) returns (target: Option<nat>)
    ensures CanSignal(p, target)
  {
    if w :| 0 <= w < |p.workers| && p.workers[w].Waiting? {
      target := Some(w);
    } else {
      target := None;
    }
  }

  /** The holder of the mutex can always move on, towards releasing it. */
  lemma HolderMoves(p: Pool) returns (q: Pool)
    requires Ok(p) && p.queue != [] && p.lock.Some? && !SomeWorker(p, AtQueue)
    ensures Ok(q) && q.queue != [] && (Takes(q) ==> Takes(p))
    ensures OnlyHolderMoved(p, q) && ToRelease(q) < ToRelease(p)
  {
    match p.lock
    case Some(ByWorker(w)) =>
      assert WorkerInside(p.workers[w]);
      q := Go(p, if p.workers[w].Holding? then EnterWait(w) else Unlock(w));
    case Some(BySubmitter(s)) =>
      assert SubmitterInside(p.submitters[s]);
      if p.submitters[s].AtPush? {
        q := Go(p, Push(s));
      } else if p.submitters[s].AtSignal? {
        var target := Waiter(p);
        q := Go(p, Signal(s, target));
      } else {
        q := Go(p, Release(s));
      }
  }

  lemma FromQueue(p: Pool, w: nat)
    requires Ok(p) && p.queue != [] && w < |p.workers| && AtQueue(p.workers[w])
    ensures Takes(p)
  {
    if p.workers[w].AtPop? {
      FromPop(p, w);
    } else {
      FromPeek(p, w);
    }
  }

  lemma {:induction false} FromWoken(p: Pool, w: nat)
    requires Ok(p) && p.queue != [] && w < |p.workers| && p.workers[w].Woken?
    ensures Takes(p)
    decreases ToRelease(p)
  {
    if v: nat :| v < |p.workers| && AtQueue(p.workers[v]) {
      FromQueue(p, v);
    } else if p.lock.None? {
      var q := Go(p, Reacquire(w));
      FromPeek(q, w);
    } else {
      var q := HolderMoves(p);
      FromWoken(q, w);
    }
  }

  lemma FromPastWait(p: Pool, w: nat)
    requires Ok(p) && p.queue != [] && w < |p.workers| && PastWait(p.workers[w])
    ensures Takes(p)
  {
    if p.workers[w].Woken? {
      FromWoken(p, w);
    } else {
      FromQueue(p, w);
    }
  }

  lemma FromStopSignal(p: Pool, w: nat)
    requires Ok(p) && p.queue != [] && w < |p.workers| && p.workers[w].Waiting? && p.stopSignals > 0
    ensures Takes(p)
  {
    var q := Go(p, StopSignal(Some(w)));
    FromWoken(q, w);
  }

  lemma FromSignal(p: Pool, w: nat, s: nat)
    requires Ok(p) && p.queue != [] && w < |p.workers| && p.workers[w].Waiting?
    requires s < |p.submitters| && p.submitters[s].AtSignal?
    ensures Takes(p)
  {
    var q := Go(p, Signal(s, Some(w)));
    FromWoken(q, w);
  }

  lemma FromPush(p: Pool, w: nat, s: nat)
    requires Ok(p) && p.queue != [] && w < |p.workers| && p.workers[w].Waiting?
    requires s < |p.submitters| && p.submitters[s].AtPush?
    ensures Takes(p)
  {
    var q := Go(p, Push(s));
    FromSignal(q, w, s);
  }

  lemma {:induction false} FromAsking(p: Pool, w: nat, s: nat)
    requires Ok(p) && p.queue != [] && w < |p.workers| && p.workers[w].Waiting?
    requires s < |p.submitters| && p.submitters[s].WantsLock?
    ensures Takes(p)
    decreases ToRelease(p)
  {
    if v: nat :| v < |p.workers| && AtQueue(p.workers[v]) {
      FromQueue(p, v);
    } else if p.lock.None? {
      var q := Go(p, SubmitLock(s));
      FromPush(q, w, s);
    } else {
      var q := HolderMoves(p);
      assert !SubmitterInside(p.submitters[s]) && !WorkerInside(p.workers[w]);
      if q.workers[w].Woken? {
        FromWoken(q, w);
      } else {
        FromAsking(q, w, s);
      }
    }
  }

  /** A worker in the wait, and a signal ahead. */
  lemma FromWaiting(p: Pool, w: nat)
    requires Ok(p) && p.queue != [] && w < |p.workers| && p.workers[w].Waiting?
    requires p.stopSignals > 0 || SomeSubmitter(p, WillSignal)
    ensures Takes(p)
  {
    if p.stopSignals > 0 {
      FromStopSignal(p, w);
    } else {
      var s :| 0 <= s < |p.submitters| && WillSignal(p.submitters[s]);
      match p.submitters[s]
      case WantsLock(_) => FromAsking(p, w, s);
      case AtPush(_) => FromPush(p, w, s);
      case AtSignal => FromSignal(p, w, s);
    }
  }

  lemma FromHolding(p: Pool, w: nat)
    requires Ok(p) && p.queue != [] && w < |p.workers| && p.workers[w].Holding?
    requires p.stopSignals > 0 || Asking(p)
    ensures Takes(p)
  {
    var q := Go(p, EnterWait(w));
    if p.stopSignals == 0 {
      var s: nat :| s < |p.submitters| && p.submitters[s].WantsLock?;
      assert WillSignal(q.submitters[s]);
    }
    FromWaiting(q, w);
  }

  lemma StillAsking(p: Pool, q: Pool)
    requires OnlyHolderMoved(p, q) && Asking(p)
    ensures Asking(q)
  {
    var s: nat :| s < |p.submitters| && p.submitters[s].WantsLock?;
    assert !SubmitterInside(p.submitters[s]) && q.submitters[s].WantsLock?;
  }

  lemma {:induction false} FromBeforeWait(p: Pool, w: nat)
    requires Ok(p) && p.queue != [] && w < |p.workers| && BeforeWait(p.workers[w])
    requires p.stopSignals > 0 || Asking(p)
    ensures Takes(p)
    decreases ToRelease(p)
  {
    if p.workers[w].Holding? {
      FromHolding(p, w);
    } else if v: nat :| v < |p.workers| && AtQueue(p.workers[v]) {
      FromQueue(p, v);
    } else if p.lock.None? {
      var q := Go(p, Lock(w));
      FromHolding(q, w);
    } else {
      var q := HolderMoves(p);
      if p.stopSignals == 0 {
        StillAsking(p, q);
      }
      assert !WorkerInside(p.workers[w]);
      FromBeforeWait(q, w);
    }
  }

  /** How many steps a worker is from testing the flag. */
  function ToTest(w: Worker): nat {
    if w.AtUnlock? then 2 else if w.Executing? then 1 else 0
  }

  lemma {:induction false} FromReturning(p: Pool, w: nat)
    requires Ok(p) && p.queue != [] && w < |p.workers| && Returning(p.workers[w]) && p.active && Asking(p)
    ensures Takes(p)
    decreases ToTest(p.workers[w])
  {
    var step := match p.workers[w]
                case AtUnlock(_) => Unlock(w)
                case Executing(_) => Finish(w)
                case _ => TestActive(w);
    var q := Go(p, step);
    assert q.submitters == p.submitters && q.active;
    if p.workers[w].AtLoop? {
      FromBeforeWait(q, w);
    } else {
      FromReturning(q, w);
    }
  }

  lemma SomeRunTakes(p: Pool)
    requires Ok(p) && p.queue != [] && CanTake(p)
    ensures Takes(p)
  {
    if w: nat :| w < |p.workers| && PastWait(p.workers[w]) {
      FromPastWait(p, w);
    } else if SomeWorker(p, (w: Worker) => w.Waiting?) && (p.stopSignals > 0 || SomeSubmitter(p, WillSignal)) {
      var w: nat :| w < |p.workers| && p.workers[w].Waiting?;
      FromWaiting(p, w);
    } else if SomeWorker(p, BeforeWait) && (p.stopSignals > 0 || Asking(p)) {
      var w: nat :| w < |p.workers| && BeforeWait(p.workers[w]);
      FromBeforeWait(p, w);
    } else {
      var w: nat :| w < |p.workers| && Returning(p.workers[w]);
      FromReturning(p, w);
    }
  }

  /**
   * In every reachable state with a queued job, whatever the number of threads: some continuation
   * without spurious wakeups, new submissions or a shutdown takes that job next, if and only if the
   * condition holds.
   */
  lemma TakenIff(workers: nat, submitters: nat, p: Pool)
    requires Reachable(workers, submitters, p) && p.queue != []
    ensures Takes(p) <==> CanTake(p)
  {
    ReachableOk(workers, submitters, p);
    if CanTake(p) {
      SomeRunTakes(p);
    } else if Takes(p) {
      var steps, q :| QuietRun(p, steps, q) && TakesHead(p, q);
      StuckRun(p, steps, q);
    }
  }

  /** Where it fails it fails for good: no such continuation takes anything or restores it. */
  lemma StuckForGood(workers: nat, submitters: nat, p: Pool, steps: seq<Step>, q: Pool)
    requires Reachable(workers, submitters, p) && !CanTake(p) && QuietRun(p, steps, q)
    ensures q.taken == p.taken && !CanTake(q)
  {
    ReachableOk(workers, submitters, p);
    StuckRun(p, steps, q);
  }

  /** Such states are reachable: one worker that starts waiting after the only submission is over. */
  lemma LostJob(job: Job)
    ensures var p := Pushed(job, Waiting, Idle, None);
            Reachable(1, 1, p) && p.queue == [job] && !CanTake(p) && !Takes(p)
  {
    LostWakeup(job);
    TakenIff(1, 1, Pushed(job, Waiting, Idle, None));
  }

  // ----- With a worker past the wait every run takes the next job, or still can -----

  /** A queued job with a worker past the wait. */
  ghost predicate Awake(p: Pool) {
    p.queue != [] && SomeWorker(p, PastWait)
  }

  lemma AwakeStep(p: Pool, step: Step)
    requires Ok(p) && Awake(p) && Enabled(p, step) && !step.Pop?
    ensures Awake(Apply(p, step)) && Apply(p, step).taken == p.taken
  {
    var w: nat :| w < |p.workers| && PastWait(p.workers[w]);
    QueueKeepsHead(p, step);
    assert PastWait(Apply(p, step).workers[w]);
  }

  lemma PopTakesHead(p: Pool, step: Step)
    requires Ok(p) && Enabled(p, step) && step.Pop?
    ensures p.queue != [] && Apply(p, step).taken == p.taken + [(step.w, p.queue[0])]
  {
    assert WorkerOk(p, step.w);
  }

  lemma {:induction false} TakenGrows(p: Pool, steps: seq<Step>, q: Pool)
    requires Run(p, steps, q)
    ensures p.taken <= q.taken
    decreases |steps|
  {
    if steps != [] {
      TakenGrows(Apply(p, steps[0]), steps[1..], q);
    }
  }

  /** The job at the head of p's queue is the next one taken on the way to q. */
  predicate TookHead(p: Pool, q: Pool)
    requires p.queue != []
  {
    |p.taken| < |q.taken| && q.taken[|p.taken|].1 == p.queue[0]
  }

  /** Nothing has been taken since, and a worker is still past the wait. */
  ghost predicate StillAwake(p: Pool, q: Pool)
    requires p.queue != []
  {
    Awake(q) && q.taken == p.taken && q.queue[0] == p.queue[0]
  }

  lemma {:induction false} AwakeRun(p: Pool, steps: seq<Step>, q: Pool)
    requires Ok(p) && Awake(p) && Run(p, steps, q)
    ensures TookHead(p, q) || StillAwake(p, q)
    decreases |steps|
  {
    if steps != [] {
      var next := Apply(p, steps[0]);
      if steps[0].Pop? {
        PopTakesHead(p, steps[0]);
        TakenGrows(next, steps[1..], q);
        assert q.taken[|p.taken|] == next.taken[|p.taken|];
      } else {
        StepKeepsOk(p, steps[0]);
        AwakeStep(p, steps[0]);
        QueueKeepsHead(p, steps[0]);
        AwakeRun(next, steps[1..], q);
      }
    }
  }

  /**
   * A wakeup that has happened is not lost: along any run at all, spurious wakeups, submissions and
   * shutdown included, the queued job has been taken next or some continuation still takes it.
   */
  lemma WakeupIsKept(workers: nat, submitters: nat, p: Pool, steps: seq<Step>, q: Pool)
    requires Reachable(workers, submitters, p) && Awake(p) && Run(p, steps, q)
    ensures TookHead(p, q) || (q.queue != [] && q.queue[0] == p.queue[0] && Takes(q))
  {
    ReachableOk(workers, submitters, p);
    AwakeRun(p, steps, q);
    if StillAwake(p, q) {
      RunKeepsOk(p, steps, q);
      SomeRunTakes(q);
    }
  }
}
