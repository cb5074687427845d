/**
 * The thread pool of src/systems/thread_pool.c as an interleaved step relation: any number of
 * workers and submitters, one mutex, one condition variable with spurious wakeups, one flag.
 */
module ThreadPool {
  import opened Optional
  import Queue

  /** A job function together with its argument, by identity. */
  type Job = nat

  /** Where a worker stands in generic_thread_function. */
  datatype Worker =
    | AtLoop                          // about to test the active flag
    | AtLock                          // the flag was 1; asking for the mutex
    | Holding                         // has the mutex, about to wait on the condition
    | Waiting                         // inside the wait, mutex released
    | Woken                           // signalled or woken spuriously; must get the mutex back
    | AtPeek                          // returned from the wait, holding the mutex
    | AtPop(next: Job)                // peeked a job and copied it, not yet removed
    | AtUnlock(job: Option<Job>)      // job popped, or nothing to do
    | Executing(running: Job)
    | Exited

  /** Where a submitter stands in add_work. */
  datatype Submitter =
    | Idle
    | WantsLock(wanted: Job)
    | AtPush(pushed: Job)
    | AtSignal
    | AtRelease

  datatype Holder = ByWorker(w: nat) | BySubmitter(s: nat)

  /**
   * The shared state, and the history it is judged by: the jobs pushed, the jobs popped with the
   * worker that popped them, what each worker has executed, how often its wait has returned, and
   * how many jobs it has popped since the flag was cleared.
   */
  datatype Pool = Pool(
    active: bool,
    lock: Option<Holder>,
    queue: seq<Job>,
    workers: seq<Worker>,
    submitters: seq<Submitter>,
    stopSignals: nat,
    submitted: seq<Job>,
    taken: seq<(nat, Job)>,
    done: seq<seq<Job>>,
    wakeups: seq<nat>,
    late: seq<nat>)

  datatype Step =
    | TestActive(w: nat)
    | Lock(w: nat)
    | EnterWait(w: nat)
    | Spurious(w: nat)
    | Reacquire(w: nat)
    | Peek(w: nat)
    | Pop(w: nat)
    | Unlock(w: nat)
    | Finish(w: nat)
    | Submit(s: nat, job: Job)
    | SubmitLock(s: nat)
    | Push(s: nat)
    | Signal(s: nat, target: Option<nat>)
    | Release(s: nat)
    | Stop
    | StopSignal(target: Option<nat>)

  function Initial(workers: nat, submitters: nat): Pool {
    Pool(true, None, [], seq(workers, _ => AtLoop), seq(submitters, _ => Idle), 0,
         [], [], seq(workers, _ => []), seq(workers, _ => 0), seq(workers, _ => 0))
  }

  // ----- Steps -----

  /** pthread_cond_signal: some waiter if there is one, nobody otherwise. */
  ghost predicate CanSignal(p: Pool, target: Option<nat>) {
    match target
    case Some(w) => w < |p.workers| && p.workers[w] == Waiting
    case None => forall w | 0 <= w < |p.workers| :: p.workers[w] != Waiting
  }

  ghost predicate Enabled(p: Pool, step: Step) {
    match step
    case TestActive(w) => w < |p.workers| && p.workers[w] == AtLoop
    case Lock(w) => w < |p.workers| && p.workers[w] == AtLock && p.lock == None
    case EnterWait(w) => w < |p.workers| && p.workers[w] == Holding
    case Spurious(w) => w < |p.workers| && p.workers[w] == Waiting
    case Reacquire(w) => w < |p.workers| && p.workers[w] == Woken && p.lock == None
    case Peek(w) => w < |p.workers| && p.workers[w] == AtPeek
    case Pop(w) => w < |p.workers| && p.workers[w].AtPop?
    case Unlock(w) => w < |p.workers| && p.workers[w].AtUnlock?
    case Finish(w) => w < |p.workers| && p.workers[w].Executing?
    case Submit(s, job) => s < |p.submitters| && p.submitters[s] == Idle
    case SubmitLock(s) => s < |p.submitters| && p.submitters[s].WantsLock? && p.lock == None
    case Push(s) => s < |p.submitters| && p.submitters[s].AtPush?
    case Signal(s, target) => s < |p.submitters| && p.submitters[s] == AtSignal && CanSignal(p, target)
    case Release(s) => s < |p.submitters| && p.submitters[s] == AtRelease
    case Stop => p.active
    case StopSignal(target) => p.stopSignals > 0 && CanSignal(p, target)
  }

  predicate Shaped(p: Pool) {
    |p.workers| == |p.done| == |p.wakeups| == |p.late|
  }

  function Wake(p: Pool, target: Option<nat>): Pool
    requires target.Some? ==> target.value < |p.workers|
  {
    if target.None? then p else p.(workers := p.workers[target.value := Woken])
  }

  ghost function Apply(p: Pool, step: Step): Pool
    requires Shaped(p) && Enabled(p, step)
  {
    match step
    case TestActive(w) => p.(workers := p.workers[w := if p.active then AtLock else Exited])
    case Lock(w) => p.(workers := p.workers[w := Holding], lock := Some(ByWorker(w)))
    case EnterWait(w) => p.(workers := p.workers[w := Waiting], lock := None)
    case Spurious(w) => p.(workers := p.workers[w := Woken])
    case Reacquire(w) =>
      p.(workers := p.workers[w := AtPeek], lock := Some(ByWorker(w)), wakeups := p.wakeups[w := p.wakeups[w] + 1])
    case Peek(w) =>
      var front := Queue.Peeked(p.queue);
      p.(workers := p.workers[w := if front.None? then AtUnlock(None) else AtPop(front.value)])
    case Pop(w) =>
      var job := p.workers[w].next;
      p.(workers := p.workers[w := AtUnlock(Some(job))], queue := Queue.Popped(p.queue),
         taken := p.taken + [(w, job)],
         late := if p.active then p.late else p.late[w := p.late[w] + 1])
    case Unlock(w) =>
      var job := p.workers[w].job;
      p.(workers := p.workers[w := if job.None? then AtLoop else Executing(job.value)], lock := None)
    case Finish(w) =>
      p.(workers := p.workers[w := AtLoop], done := p.done[w := p.done[w] + [p.workers[w].running]])
    case Submit(s, job) => p.(submitters := p.submitters[s := WantsLock(job)])
    case SubmitLock(s) =>
      p.(submitters := p.submitters[s := AtPush(p.submitters[s].wanted)], lock := Some(BySubmitter(s)))
    case Push(s) =>
      var job := p.submitters[s].pushed;
      p.(submitters := p.submitters[s := AtSignal], queue := Queue.Pushed(p.queue, job), submitted := p.submitted + [job])
    case Signal(s, target) => Wake(p, target).(submitters := p.submitters[s := AtRelease])
    case Release(s) => p.(submitters := p.submitters[s := Idle], lock := None)
    case Stop => p.(active := false, stopSignals := |p.workers|)
    case StopSignal(target) => Wake(p, target).(stopSignals := p.stopSignals - 1)
  }

  // ----- The invariant -----

  /** Between lock and unlock, the wait excepted. */
  predicate WorkerInside(w: Worker) {
    w.Holding? || w.AtPeek? || w.AtPop? || w.AtUnlock?
  }

  predicate SubmitterInside(s: Submitter) {
    s.AtPush? || s.AtSignal? || s.AtRelease?
  }

  /** The lock is held by exactly the thread that is inside. */
  ghost predicate MutexOk(p: Pool) {
    && (forall w | 0 <= w < |p.workers| :: WorkerInside(p.workers[w]) <==> p.lock == Some(ByWorker(w)))
    && (forall s | 0 <= s < |p.submitters| :: SubmitterInside(p.submitters[s]) <==> p.lock == Some(BySubmitter(s)))
  }

  function Jobs(taken: seq<(nat, Job)>): seq<Job> {
    if taken == [] then [] else Jobs(taken[..|taken| - 1]) + [taken[|taken| - 1].1]
  }

  function TakenBy(taken: seq<(nat, Job)>, w: nat): seq<Job> {
    if taken == [] then []
    else
      var (who, job) := taken[|taken| - 1];
      TakenBy(taken[..|taken| - 1], w) + if who == w then [job] else []
  }

  /** The job a worker has popped and not finished. */
  function InHand(w: Worker): seq<Job> {
    if w.AtUnlock? && w.job.Some? then [w.job.value]
    else if w.Executing? then [w.running]
    else []
  }

  /** A worker that may still pop a job before it tests the flag again. */
  predicate MayTake(w: Worker) {
    w.AtLock? || w.Holding? || w.Waiting? || w.Woken? || w.AtPeek? || w.AtPop?
  }

  function Bit(b: bool): nat {
    if b then 1 else 0
  }

  ghost predicate WorkerOk(p: Pool, w: nat)
    requires Shaped(p) && w < |p.workers|
  {
    && (p.workers[w].AtPop? ==> p.queue != [] && p.queue[0] == p.workers[w].next)
    && TakenBy(p.taken, w) == p.done[w] + InHand(p.workers[w])
    && |TakenBy(p.taken, w)| + Bit(p.workers[w].AtPeek? || p.workers[w].AtPop?) <= p.wakeups[w]
    && (if p.active then p.late[w] == 0 else p.late[w] + Bit(MayTake(p.workers[w])) <= 1)
  }

  ghost predicate Inv(p: Pool) {
    && Shaped(p) && MutexOk(p)
    && p.submitted == Jobs(p.taken) + p.queue
    && forall w | 0 <= w < |p.workers| :: WorkerOk(p, w)
  }

  lemma InitialInv(workers: nat, submitters: nat)
    ensures Inv(Initial(workers, submitters))
  {
  }

  lemma OneMoreTaken(taken: seq<(nat, Job)>, w: nat, job: Job)
    ensures Jobs(taken + [(w, job)]) == Jobs(taken) + [job]
    ensures forall v: nat :: TakenBy(taken + [(w, job)], v) == TakenBy(taken, v) + if v == w then [job] else []
  {
    assert (taken + [(w, job)])[..|taken|] == taken;
  }

  predicate OfWorker(step: Step) {
    step.TestActive? || step.Lock? || step.EnterWait? || step.Spurious? || step.Reacquire?
    || step.Peek? || step.Pop? || step.Unlock? || step.Finish?
  }

  predicate Signals(step: Step) {
    step.Signal? || step.StopSignal?
  }

  lemma WorkerKeepsMutex(p: Pool, step: Step)
    requires Inv(p) && Enabled(p, step) && OfWorker(step)
    ensures Shaped(Apply(p, step)) && MutexOk(Apply(p, step))
  {
  }

  lemma OthersKeepMutex(p: Pool, step: Step)
    requires Inv(p) && Enabled(p, step) && !OfWorker(step)
    ensures Shaped(Apply(p, step)) && MutexOk(Apply(p, step))
  {
  }

  lemma StepKeepsMutex(p: Pool, step: Step)
    requires Inv(p) && Enabled(p, step)
    ensures Shaped(Apply(p, step)) && MutexOk(Apply(p, step))
  {
    if OfWorker(step) {
      WorkerKeepsMutex(p, step);
    } else {
      OthersKeepMutex(p, step);
    }
  }

  lemma PopMovesJob(p: Pool, w: nat)
    requires Inv(p) && Enabled(p, Pop(w))
    ensures var job := p.workers[w].next;
            p.queue == [job] + Queue.Popped(p.queue) && Jobs(p.taken) + p.queue == Jobs(p.taken + [(w, job)]) + Queue.Popped(p.queue)
  {
    assert WorkerOk(p, w);
    OneMoreTaken(p.taken, w, p.workers[w].next);
  }

  lemma StepKeepsQueue(p: Pool, step: Step)
    requires Inv(p) && Enabled(p, step)
    ensures Apply(p, step).submitted == Jobs(Apply(p, step).taken) + Apply(p, step).queue
  {
    match step
    case Pop(w) => PopMovesJob(p, w);
    case Push(s) => assert p.submitted + [p.submitters[s].pushed] == Jobs(p.taken) + (p.queue + [p.submitters[s].pushed]);
    case _ =>
  }

  /** Popping, seen by any worker. */
  lemma PopKeepsWorker(p: Pool, w: nat, v: nat)
    requires Inv(p) && Enabled(p, Pop(w)) && v < |p.workers|
    ensures WorkerOk(Apply(p, Pop(w)), v)
  {
    assert WorkerOk(p, v);
    OneMoreTaken(p.taken, w, p.workers[w].next);
    assert WorkerInside(p.workers[w]);
    if v != w {
      assert !WorkerInside(p.workers[v]);
      assert TakenBy(p.taken, v) + [] == TakenBy(p.taken, v);
    }
  }

  /** Pushing: nobody can be between peek and pop. */
  lemma PushKeepsWorker(p: Pool, s: nat, v: nat)
    requires Inv(p) && Enabled(p, Push(s)) && v < |p.workers|
    ensures WorkerOk(Apply(p, Push(s)), v)
  {
    assert WorkerOk(p, v);
    assert SubmitterInside(p.submitters[s]) && !WorkerInside(p.workers[v]);
  }

  lemma FinishKeepsWorker(p: Pool, w: nat, v: nat)
    requires Inv(p) && Enabled(p, Finish(w)) && v < |p.workers|
    ensures WorkerOk(Apply(p, Finish(w)), v)
  {
    assert WorkerOk(p, v);
  }

  /** The steps that leave queue, history and execution logs alone: a worker's own, up to the wait. */
  lemma WayInKeepsWorker(p: Pool, step: Step, v: nat)
    requires Inv(p) && Enabled(p, step) && v < |p.workers|
    requires step.TestActive? || step.Lock? || step.EnterWait? || step.Spurious?
    ensures WorkerOk(Apply(p, step), v)
  {
    assert WorkerOk(p, v);
  }

  /** And from the wait on. */
  lemma WayOutKeepsWorker(p: Pool, step: Step, v: nat)
    requires Inv(p) && Enabled(p, step) && v < |p.workers|
    requires step.Reacquire? || step.Peek? || step.Unlock?
    ensures WorkerOk(Apply(p, step), v)
  {
    assert WorkerOk(p, v);
  }

  lemma WakeKeepsWorker(p: Pool, target: Option<nat>, v: nat)
    requires Shaped(p) && CanSignal(p, target) && v < |p.workers| && WorkerOk(p, v)
    ensures Shaped(Wake(p, target)) && WorkerOk(Wake(p, target), v)
  {
  }

  lemma SignalKeepsWorker(p: Pool, step: Step, v: nat)
    requires Inv(p) && Enabled(p, step) && v < |p.workers| && Signals(step)
    ensures WorkerOk(Apply(p, step), v)
  {
    assert WorkerOk(p, v);
    WakeKeepsWorker(p, step.target, v);
  }

  /** And those of submitters and of the destructor. */
  lemma ForeignStepKeepsWorker(p: Pool, step: Step, v: nat)
    requires Inv(p) && Enabled(p, step) && v < |p.workers|
    requires !OfWorker(step) && !Signals(step) && !step.Push?
    ensures WorkerOk(Apply(p, step), v)
  {
    assert WorkerOk(p, v);
  }

  lemma StepKeepsWorker(p: Pool, step: Step, v: nat)
    requires Inv(p) && Enabled(p, step) && v < |p.workers|
    ensures WorkerOk(Apply(p, step), v)
  {
    match step
    case Pop(w) => PopKeepsWorker(p, w, v);
    case Push(s) => PushKeepsWorker(p, s, v);
    case Finish(w) => FinishKeepsWorker(p, w, v);
    case _ =>
      if step.Reacquire? || step.Peek? || step.Unlock? {
        WayOutKeepsWorker(p, step, v);
      } else if OfWorker(step) {
        WayInKeepsWorker(p, step, v);
      } else if Signals(step) {
        SignalKeepsWorker(p, step, v);
      } else {
        ForeignStepKeepsWorker(p, step, v);
      }
  }

  /** Every step of every thread keeps the invariant. */
  lemma StepKeepsInv(p: Pool, step: Step)
    requires Inv(p) && Enabled(p, step)
    ensures Inv(Apply(p, step))
  {
    StepKeepsMutex(p, step);
    StepKeepsQueue(p, step);
    forall v | 0 <= v < |p.workers|
      ensures WorkerOk(Apply(p, step), v)
    {
      StepKeepsWorker(p, step, v);
    }
  }

  // ----- Every interleaving -----

  /** A sequence of steps each of which is enabled where it is taken. */
  ghost predicate Run(p: Pool, steps: seq<Step>, q: Pool)
    decreases |steps|
  {
    if steps == [] then p == q
    else Shaped(p) && Enabled(p, steps[0]) && Run(Apply(p, steps[0]), steps[1..], q)
  }

  ghost predicate Reachable(workers: nat, submitters: nat, p: Pool) {
    exists steps :: Run(Initial(workers, submitters), steps, p)
  }

  lemma {:induction false} RunKeepsInv(p: Pool, steps: seq<Step>, q: Pool)
    requires Inv(p) && Run(p, steps, q)
    ensures Inv(q) && |q.workers| == |p.workers| && (TakersExist(p) ==> TakersExist(q))
    decreases |steps|
  {
    if steps != [] {
      StepKeepsInv(p, steps[0]);
      RunKeepsInv(Apply(p, steps[0]), steps[1..], q);
    }
  }

  ghost predicate TakersExist(p: Pool) {
    forall i | 0 <= i < |p.taken| :: p.taken[i].0 < |p.workers|
  }

  lemma ReachableInv(workers: nat, submitters: nat, p: Pool)
    requires Reachable(workers, submitters, p)
    ensures Inv(p) && TakersExist(p) && |p.workers| == workers
  {
    var steps :| Run(Initial(workers, submitters), steps, p);
    InitialInv(workers, submitters);
    RunKeepsInv(Initial(workers, submitters), steps, p);
  }

  /**
   * No job is lost, repeated or overtaken: in every reachable state the jobs submitted are, in
   * order, the jobs popped followed by the jobs queued, and at most one thread is inside the
   * critical section.
   */
  lemma JobsAreConserved(workers: nat, submitters: nat, p: Pool)
    requires Reachable(workers, submitters, p)
    ensures p.submitted == Jobs(p.taken) + p.queue
    ensures forall v, w | 0 <= v < w < |p.workers| :: !(WorkerInside(p.workers[v]) && WorkerInside(p.workers[w]))
    ensures forall s, t | 0 <= s < t < |p.submitters| ::
              !(SubmitterInside(p.submitters[s]) && SubmitterInside(p.submitters[t]))
    ensures forall w, s | 0 <= w < |p.workers| && 0 <= s < |p.submitters| ::
              !(WorkerInside(p.workers[w]) && SubmitterInside(p.submitters[s]))
  {
    ReachableInv(workers, submitters, p);
  }

  /**
   * A worker executes exactly the jobs it popped, in that order, each once; it never pops more
   * often than its wait has returned; and after the flag is cleared it pops at most one more job.
   */
  lemma WorkerHistory(workers: nat, submitters: nat, p: Pool, w: nat)
    requires Reachable(workers, submitters, p) && w < workers
    ensures |p.workers| == |p.done| == |p.wakeups| == |p.late| == workers
    ensures p.done[w] + InHand(p.workers[w]) == TakenBy(p.taken, w)
    ensures |TakenBy(p.taken, w)| <= p.wakeups[w]
    ensures p.late[w] <= 1 && (p.active ==> p.late[w] == 0)
  {
    ReachableInv(workers, submitters, p);
    assert WorkerOk(p, w);
  }

  // ----- Counting executions -----

  /** The jobs a worker has executed, and the one it holds. */
  function Kept(p: Pool, w: nat): seq<Job>
    requires Shaped(p) && w < |p.workers|
  {
    p.done[w] + InHand(p.workers[w])
  }

  /** All jobs the first n workers have executed or hold. */
  function Accounted(p: Pool, n: nat): multiset<Job>
    requires Shaped(p) && n <= |p.workers|
  {
    if n == 0 then multiset{} else Accounted(p, n - 1) + multiset(Kept(p, n - 1))
  }

  ghost function TakenByFirst(taken: seq<(nat, Job)>, n: nat): multiset<Job> {
    if n == 0 then multiset{} else TakenByFirst(taken, n - 1) + multiset(TakenBy(taken, n - 1))
  }

  function Once(taken: bool, job: Job): multiset<Job> {
    if taken then multiset{job} else multiset{}
  }

  lemma TakenByGrows(taken: seq<(nat, Job)>, w: nat, job: Job, v: nat)
    ensures multiset(TakenBy(taken + [(w, job)], v)) == multiset(TakenBy(taken, v)) + Once(v == w, job)
  {
    OneMoreTaken(taken, w, job);
  }

  lemma AddBoth(a: multiset<Job>, b: multiset<Job>, w: nat, n: nat, job: Job)
    ensures (a + Once(w < n, job)) + (b + Once(n == w, job)) == (a + b) + Once(w < n + 1, job)
  {
  }

  lemma {:induction false} TakenByFirstGrows(taken: seq<(nat, Job)>, w: nat, job: Job, n: nat)
    ensures TakenByFirst(taken + [(w, job)], n) == TakenByFirst(taken, n) + Once(w < n, job)
  {
    if n > 0 {
      TakenByFirstGrows(taken, w, job, n - 1);
      TakenByGrows(taken, w, job, n - 1);
      AddBoth(TakenByFirst(taken, n - 1), multiset(TakenBy(taken, n - 1)), w, n - 1, job);
    }
  }

  lemma {:induction false} TakenByNobody(n: nat)
    ensures TakenByFirst([], n) == multiset{}
  {
    if n > 0 {
      TakenByNobody(n - 1);
    }
  }

  lemma {:induction false} TakenByAll(taken: seq<(nat, Job)>, n: nat)
    requires forall i | 0 <= i < |taken| :: taken[i].0 < n
    ensures TakenByFirst(taken, n) == multiset(Jobs(taken))
  {
    if taken == [] {
      TakenByNobody(n);
    } else {
      var front, last := taken[..|taken| - 1], taken[|taken| - 1];
      assert taken == front + [last];
      TakenByAll(front, n);
      TakenByFirstGrows(front, last.0, last.1, n);
    }
  }

  lemma AddPart(a: multiset<Job>, b: multiset<Job>, x: seq<Job>, y: seq<Job>)
    requires a == b && x == y
    ensures a + multiset(x) == b + multiset(y)
  {
  }

  lemma {:induction false} AccountedIsTaken(p: Pool, n: nat)
    requires Shaped(p) && n <= |p.workers|
    requires forall w | 0 <= w < |p.workers| :: Kept(p, w) == TakenBy(p.taken, w)
    ensures Accounted(p, n) == TakenByFirst(p.taken, n)
  {
    if n > 0 {
      AccountedIsTaken(p, n - 1);
      AddPart(Accounted(p, n - 1), TakenByFirst(p.taken, n - 1), Kept(p, n - 1), TakenBy(p.taken, n - 1));
    }
  }

  /** Every submitted job has been executed once, is held by one worker, or is still queued. */
  lemma EveryJobAccountedFor(workers: nat, submitters: nat, p: Pool)
    requires Reachable(workers, submitters, p)
    ensures Shaped(p) && |p.workers| == workers
    ensures multiset(p.submitted) == Accounted(p, workers) + multiset(p.queue)
  {
    ReachableInv(workers, submitters, p);
    forall w | 0 <= w < |p.workers|
      ensures Kept(p, w) == TakenBy(p.taken, w)
    {
      assert WorkerOk(p, w);
    }
    AccountedIsTaken(p, workers);
    TakenByAll(p.taken, workers);
  }

  // ----- The history is the run's -----

  /** How often worker w's wait returns in a run. */
  function WaitReturns(steps: seq<Step>, w: nat): nat {
    if steps == [] then 0 else Bit(steps[0] == Reacquire(w)) + WaitReturns(steps[1..], w)
  }

  /** How often worker w pops a job in a run once the flag is cleared. */
  function LatePops(steps: seq<Step>, w: nat, active: bool): nat {
    if steps == [] then 0
    else Bit(!active && steps[0] == Pop(w)) + LatePops(steps[1..], w, active && !steps[0].Stop?)
  }

  lemma StepCounts(p: Pool, step: Step, w: nat)
    requires Shaped(p) && Enabled(p, step) && w < |p.workers|
    ensures Shaped(Apply(p, step)) && |Apply(p, step).workers| == |p.workers|
    ensures Apply(p, step).wakeups[w] == p.wakeups[w] + Bit(step == Reacquire(w))
    ensures Apply(p, step).late[w] == p.late[w] + Bit(!p.active && step == Pop(w))
    ensures Apply(p, step).active == (p.active && !step.Stop?)
  {
  }

  lemma {:induction false} RunCounts(p: Pool, steps: seq<Step>, q: Pool, w: nat)
    requires Shaped(p) && Run(p, steps, q) && w < |p.workers|
    ensures Shaped(q) && |q.workers| == |p.workers|
    ensures q.wakeups[w] == p.wakeups[w] + WaitReturns(steps, w)
    ensures q.late[w] == p.late[w] + LatePops(steps, w, p.active)
    decreases |steps|
  {
    if steps != [] {
      StepCounts(p, steps[0], w);
      RunCounts(Apply(p, steps[0]), steps[1..], q, w);
    }
  }

  /** Over every run: a worker takes at most as many jobs as its wait returns, and at most one after the flag is cleared. */
  lemma TakesAreBounded(workers: nat, submitters: nat, steps: seq<Step>, p: Pool, w: nat)
    requires Run(Initial(workers, submitters), steps, p) && w < workers
    ensures |TakenBy(p.taken, w)| <= WaitReturns(steps, w)
    ensures LatePops(steps, w, true) <= 1
  {
    RunCounts(Initial(workers, submitters), steps, p, w);
    assert Reachable(workers, submitters, p);
    WorkerHistory(workers, submitters, p, w);
  }

  // ----- What was handed to add_work -----

  /** The job a submitter has been given and has not pushed yet. */
  function Carried(s: Submitter): multiset<Job> {
    match s
    case WantsLock(job) => multiset{job}
    case AtPush(job) => multiset{job}
    case _ => multiset{}
  }

  function AllCarried(submitters: seq<Submitter>): multiset<Job> {
    if submitters == [] then multiset{} else Carried(submitters[0]) + AllCarried(submitters[1..])
  }

  lemma Beside(a: multiset<Job>, b: multiset<Job>, x: multiset<Job>, y: multiset<Job>, other: multiset<Job>)
    requires a + x == b + y
    ensures (other + a) + x == (other + b) + y
  {
    assert (other + a) + x == other + (a + x);
    assert (other + b) + y == other + (b + y);
  }

  lemma {:induction false} OneCarries(submitters: seq<Submitter>, s: nat, x: Submitter)
    requires s < |submitters|
    ensures AllCarried(submitters[s := x]) + Carried(submitters[s]) == AllCarried(submitters) + Carried(x)
  {
    if s == 0 {
      assert submitters[s := x][1..] == submitters[1..];
    } else {
      var rest := submitters[1..];
      assert submitters[s := x][1..] == rest[s - 1 := x];
      OneCarries(rest, s - 1, x);
      Beside(AllCarried(rest[s - 1 := x]), AllCarried(rest), Carried(rest[s - 1]), Carried(x), Carried(submitters[0]));
    }
  }

  /** The job a step hands to add_work. */
  function Offer(step: Step): multiset<Job> {
    if step.Submit? then multiset{step.job} else multiset{}
  }

  function AllOffers(steps: seq<Step>): multiset<Job> {
    if steps == [] then multiset{} else Offer(steps[0]) + AllOffers(steps[1..])
  }

  function Known(p: Pool): multiset<Job> {
    multiset(p.submitted) + AllCarried(p.submitters)
  }

  lemma Balance(submitted: multiset<Job>, pushed: multiset<Job>, before: multiset<Job>, after: multiset<Job>,
                gone: multiset<Job>, come: multiset<Job>, offer: multiset<Job>)
    requires after + gone == before + come && pushed + come == gone + offer
    ensures (submitted + pushed) + after == (submitted + before) + offer
  {
    forall job: Job
      ensures ((submitted + pushed) + after)[job] == ((submitted + before) + offer)[job]
    {
      assert (after + gone)[job] == (before + come)[job] && (pushed + come)[job] == (gone + offer)[job];
    }
  }

  /** The job a step appends to the queue. */
  function PushedBy(p: Pool, step: Step): multiset<Job>
    requires step.Push? ==> step.s < |p.submitters|
  {
    if step.Push? then Carried(p.submitters[step.s]) else multiset{}
  }

  lemma SubmittedGrows(p: Pool, step: Step)
    requires Shaped(p) && Enabled(p, step)
    ensures multiset(Apply(p, step).submitted) == multiset(p.submitted) + PushedBy(p, step)
  {
    if step.Push? {
      var job := p.submitters[step.s].pushed;
      assert multiset(p.submitted + [job]) == multiset(p.submitted) + multiset{job};
    }
  }

  predicate OfSubmitter(step: Step) {
    step.Submit? || step.SubmitLock? || step.Push? || step.Signal? || step.Release?
  }

  lemma OneSubmitterMoves(p: Pool, step: Step)
    requires Shaped(p) && Enabled(p, step) && OfSubmitter(step)
    ensures |Apply(p, step).submitters| == |p.submitters|
    ensures Apply(p, step).submitters == p.submitters[step.s := Apply(p, step).submitters[step.s]]
  {
  }

  lemma HandedOver(p: Pool, step: Step)
    requires Shaped(p) && Enabled(p, step) && (step.Submit? || step.SubmitLock?)
    ensures Carried(Apply(p, step).submitters[step.s]) == Carried(p.submitters[step.s]) + Offer(step)
  {
  }

  lemma HandedIn(p: Pool, step: Step)
    requires Shaped(p) && Enabled(p, step) && (step.Push? || step.Signal? || step.Release?)
    ensures Carried(Apply(p, step).submitters[step.s]) == multiset{} && PushedBy(p, step) == Carried(p.submitters[step.s])
  {
  }

  lemma HandedOn(p: Pool, step: Step, x: Submitter)
    requires Shaped(p) && Enabled(p, step) && OfSubmitter(step) && x == Apply(p, step).submitters[step.s]
    ensures PushedBy(p, step) + Carried(x) == Carried(p.submitters[step.s]) + Offer(step)
  {
    if step.Submit? || step.SubmitLock? {
      HandedOver(p, step);
    } else {
      HandedIn(p, step);
    }
  }

  lemma SubmitterKeepsOffers(p: Pool, step: Step)
    requires Shaped(p) && Enabled(p, step) && OfSubmitter(step)
    ensures Known(Apply(p, step)) == Known(p) + Offer(step)
  {
    var q := Apply(p, step);
    var x := q.submitters[step.s];
    OneSubmitterMoves(p, step);
    HandedOn(p, step, x);
    SubmittedGrows(p, step);
    OneCarries(p.submitters, step.s, x);
    Balance(multiset(p.submitted), PushedBy(p, step), AllCarried(p.submitters), AllCarried(q.submitters),
            Carried(p.submitters[step.s]), Carried(x), Offer(step));
  }

  lemma StepKeepsOffers(p: Pool, step: Step)
    requires Shaped(p) && Enabled(p, step)
    ensures Known(Apply(p, step)) == Known(p) + Offer(step)
  {
    if OfSubmitter(step) {
      SubmitterKeepsOffers(p, step);
    }
  }

  lemma {:induction false} RunKeepsOffers(p: Pool, steps: seq<Step>, q: Pool)
    requires Run(p, steps, q)
    ensures Known(q) == Known(p) + AllOffers(steps)
    decreases |steps|
  {
    if steps != [] {
      StepKeepsOffers(p, steps[0]);
      RunKeepsOffers(Apply(p, steps[0]), steps[1..], q);
    }
  }

  lemma {:induction false} NobodyCarries(n: nat)
    ensures AllCarried(seq(n, _ => Idle)) == multiset{}
  {
    if n > 0 {
      assert seq(n, _ => Idle)[1..] == seq(n - 1, _ => Idle);
      NobodyCarries(n - 1);
    }
  }

  /** Over every run: what was handed to add_work is what was submitted and what submitters still carry. */
  lemma OffersAreConserved(workers: nat, submitters: nat, steps: seq<Step>, p: Pool)
    requires Run(Initial(workers, submitters), steps, p)
    ensures AllOffers(steps) == multiset(p.submitted) + AllCarried(p.submitters)
  {
    RunKeepsOffers(Initial(workers, submitters), steps, p);
    NobodyCarries(submitters);
  }

  // ----- What the pool does not promise -----

  lemma {:induction false} RunOneMore(p: Pool, steps: seq<Step>, q: Pool, step: Step)
    requires Run(p, steps, q) && Shaped(q) && Enabled(q, step)
    ensures Run(p, steps + [step], Apply(q, step))
    decreases |steps|
  {
    var all := steps + [step];
    if steps == [] {
      assert all[1..] == [];
    } else {
      assert all[1..] == steps[1..] + [step];
      RunOneMore(Apply(p, steps[0]), steps[1..], q, step);
    }
  }

  lemma Hop(p: Pool, step: Step, q: Pool)
    requires Reachable(1, 1, p) && Shaped(p) && Enabled(p, step) && Apply(p, step) == q
    ensures Reachable(1, 1, q)
  {
    var steps :| Run(Initial(1, 1), steps, p);
    RunOneMore(Initial(1, 1), steps, p, step);
  }

  /** One worker, one submitter, with the given positions, after one job was pushed. */
  function Pushed(job: Job, worker: Worker, submitter: Submitter, lock: Option<Holder>): Pool {
    Pool(true, lock, [job], [worker], [submitter], 0, [job], [], [[]], [0], [0])
  }

  function Unpushed(submitter: Submitter, lock: Option<Holder>): Pool {
    Pool(true, lock, [], [AtLoop], [submitter], 0, [], [], [[]], [0], [0])
  }

  lemma SubmitterEnters(job: Job)
    ensures Reachable(1, 1, Unpushed(AtPush(job), Some(BySubmitter(0))))
  {
    assert Initial(1, 1) == Unpushed(Idle, None);
    assert Run(Initial(1, 1), [], Unpushed(Idle, None));
    Hop(Unpushed(Idle, None), Submit(0, job), Unpushed(WantsLock(job), None));
    Hop(Unpushed(WantsLock(job), None), SubmitLock(0), Unpushed(AtPush(job), Some(BySubmitter(0))));
  }

  /** The only submitter gets all the way through add_work before the worker has even started. */
  lemma SubmissionFirst(job: Job)
    ensures Reachable(1, 1, Pushed(job, AtLoop, Idle, None))
  {
    var me := Some(BySubmitter(0));
    SubmitterEnters(job);
    Hop(Unpushed(AtPush(job), me), Push(0), Pushed(job, AtLoop, AtSignal, me));
    Hop(Pushed(job, AtLoop, AtSignal, me), Signal(0, None), Pushed(job, AtLoop, AtRelease, me));
    Hop(Pushed(job, AtLoop, AtRelease, me), Release(0), Pushed(job, AtLoop, Idle, None));
  }

  /** Then the worker goes to wait, without looking at the queue. */
  lemma WorkerSleeps(job: Job)
    ensures Reachable(1, 1, Pushed(job, Waiting, Idle, None))
  {
    SubmissionFirst(job);
    Hop(Pushed(job, AtLoop, Idle, None), TestActive(0), Pushed(job, AtLock, Idle, None));
    Hop(Pushed(job, AtLock, Idle, None), Lock(0), Pushed(job, Holding, Idle, Some(ByWorker(0))));
    Hop(Pushed(job, Holding, Idle, Some(ByWorker(0))), EnterWait(0), Pushed(job, Waiting, Idle, None));
  }

  /**
   * Progress is not promised: a job submitted early stays queued with its worker asleep, and from
   * that reachable state only a spurious wakeup, another submission or the destructor can change
   * anything.
   */
  lemma LostWakeup(job: Job)
    ensures Reachable(1, 1, Pushed(job, Waiting, Idle, None))
    ensures forall step | Enabled(Pushed(job, Waiting, Idle, None), step) ::
              step.Spurious? || step.Submit? || step.Stop?
  {
    WorkerSleeps(job);
  }
}
