/** What the destructor's flag and signals are for: they let every worker come to its end. */
module ThreadPoolShutdown {
  import opened Optional
  import Queue
  import opened ThreadPool
  import opened ThreadPoolProgress

  // ----- Counting -----

  /** How many stops a worker is from its end, once the flag is cleared. */
  function Stops(w: Worker): nat {
    match w
    case Exited => 0
    case AtLoop => 1
    case Executing(_) => 2
    case AtUnlock(_) => 3
    case AtPop(_) => 4
    case AtPeek => 5
    case Woken => 6
    case Waiting => 7
    case Holding => 8
    case AtLock => 9
  }

  function AllStops(workers: seq<Worker>): nat {
    if workers == [] then 0 else Stops(workers[0]) + AllStops(workers[1..])
  }

  /** A worker that has yet to be signalled. */
  predicate NeedsSignal(w: Worker) {
    w.Waiting? || BeforeWait(w)
  }

  function SignalsNeeded(workers: seq<Worker>): nat {
    if workers == [] then 0 else Bit(NeedsSignal(workers[0])) + SignalsNeeded(workers[1..])
  }

  lemma {:induction false} OneMoves(workers: seq<Worker>, w: nat, x: Worker)
    requires w < |workers|
    ensures AllStops(workers[w := x]) == AllStops(workers) - Stops(workers[w]) + Stops(x)
    ensures SignalsNeeded(workers[w := x]) == SignalsNeeded(workers) - Bit(NeedsSignal(workers[w])) + Bit(NeedsSignal(x))
    ensures AllStops(workers) >= Stops(workers[w]) && SignalsNeeded(workers) >= Bit(NeedsSignal(workers[w]))
  {
    if w > 0 {
      OneMoves(workers[1..], w - 1, x);
      assert workers[w := x][1..] == workers[1..][w - 1 := x];
    } else {
      assert workers[w := x][1..] == workers[1..];
    }
  }

  lemma {:induction false} AtMostAll(workers: seq<Worker>)
    ensures SignalsNeeded(workers) <= |workers|
  {
    if workers != [] {
      AtMostAll(workers[1..]);
    }
  }

  // ----- Winding down -----

  /** The flag is cleared, and there are signals enough for all who still need one. */
  ghost predicate WindingDown(p: Pool) {
    Ok(p) && !p.active && SignalsNeeded(p.workers) <= p.stopSignals
  }

  ghost predicate AllExited(p: Pool) {
    forall w | 0 <= w < |p.workers| :: p.workers[w].Exited?
  }

  /** Some continuation without spurious wakeups or new submissions ends with every worker at its end. */
  ghost predicate CanEnd(p: Pool) {
    exists steps, q :: QuietRun(p, steps, q) && AllExited(q)
  }

  lemma StepTowardsEnd(p: Pool, step: Step)
    requires Shaped(p) && Enabled(p, step) && Quiet(step) && CanEnd(Apply(p, step))
    ensures CanEnd(p)
  {
    var steps, q :| QuietRun(Apply(p, step), steps, q) && AllExited(q);
    var all := [step] + steps;
    assert all[1..] == steps;
    assert QuietRun(p, all, q);
  }

  /** The step worker w takes by itself, when it is neither in the wait nor asking for the mutex. */
  function OwnStep(p: Pool, w: nat): Step
    requires w < |p.workers|
  {
    match p.workers[w]
    case AtPop(_) => Pop(w)
    case AtPeek => Peek(w)
    case AtUnlock(_) => Unlock(w)
    case Executing(_) => Finish(w)
    case Holding => EnterWait(w)
    case AtLock => Lock(w)
    case Woken => Reacquire(w)
    case _ => TestActive(w)
  }

  lemma OwnStepIsNearer(p: Pool, w: nat)
    requires Shaped(p) && w < |p.workers| && !p.active && !p.workers[w].Exited? && !p.workers[w].Waiting?
    requires p.workers[w].AtLock? || p.workers[w].Woken? ==> p.lock.None?
    ensures Enabled(p, OwnStep(p, w)) && Quiet(OwnStep(p, w))
    ensures var q := Apply(p, OwnStep(p, w));
            && q.workers == p.workers[w := q.workers[w]] && !q.active && q.stopSignals == p.stopSignals
            && Stops(q.workers[w]) < Stops(p.workers[w])
            && (NeedsSignal(q.workers[w]) ==> NeedsSignal(p.workers[w]))
  {
  }

  /** Such a worker comes nearer to its end and uses up no signal. */
  lemma OwnStepWindsDown(p: Pool, w: nat)
    requires WindingDown(p) && w < |p.workers| && !p.workers[w].Exited? && !p.workers[w].Waiting?
    requires p.workers[w].AtLock? || p.workers[w].Woken? ==> p.lock.None?
    ensures Enabled(p, OwnStep(p, w)) && Quiet(OwnStep(p, w))
    ensures WindingDown(Apply(p, OwnStep(p, w))) && AllStops(Apply(p, OwnStep(p, w)).workers) < AllStops(p.workers)
  {
    OwnStepIsNearer(p, w);
    StepKeepsOk(p, OwnStep(p, w));
    OneMoves(p.workers, w, Apply(p, OwnStep(p, w)).workers[w]);
  }

  /** A worker in the wait gets one of the destructor's signals. */
  lemma SignalWindsDown(p: Pool, w: nat)
    requires WindingDown(p) && w < |p.workers| && p.workers[w].Waiting?
    ensures Enabled(p, StopSignal(Some(w))) && Quiet(StopSignal(Some(w)))
    ensures WindingDown(Apply(p, StopSignal(Some(w)))) && AllStops(Apply(p, StopSignal(Some(w))).workers) < AllStops(p.workers)
  {
    OneMoves(p.workers, w, Woken);
    StepKeepsOk(p, StopSignal(Some(w)));
  }

  lemma WokenByOther(p: Pool, target: Option<nat>)
    requires CanSignal(p, target)
    ensures AllStops(Wake(p, target).workers) <= AllStops(p.workers)
    ensures SignalsNeeded(Wake(p, target).workers) <= SignalsNeeded(p.workers)
  {
    if target.Some? {
      OneMoves(p.workers, target.value, Woken);
    }
  }

  /** A submitter that holds the mutex goes on to release it. */
  lemma SubmitterWindsDown(p: Pool, s: nat) returns (step: Step)
    requires WindingDown(p) && p.lock == Some(BySubmitter(s))
    ensures Enabled(p, step) && Quiet(step) && WindingDown(Apply(p, step))
    ensures AllStops(Apply(p, step).workers) <= AllStops(p.workers) && ToRelease(Apply(p, step)) < ToRelease(p)
  {
    assert SubmitterInside(p.submitters[s]);
    var target := Waiter(p);
    step := if p.submitters[s].AtPush? then Push(s) else if p.submitters[s].AtSignal? then Signal(s, target) else Release(s);
    WokenByOther(p, target);
    StepKeepsOk(p, step);
  }

  /** Someone who can move: a worker by itself, the holder of the mutex, or a worker in the wait. */
  lemma SomeoneMoves(p: Pool) returns (step: Step)
    requires WindingDown(p) && !AllExited(p)
    ensures Enabled(p, step) && Quiet(step) && WindingDown(Apply(p, step))
    ensures AllStops(Apply(p, step).workers) < AllStops(p.workers)
            || (AllStops(Apply(p, step).workers) == AllStops(p.workers) && ToRelease(Apply(p, step)) < ToRelease(p))
  {
    if w: nat :| w < |p.workers| && Free(p.workers[w]) {
      OwnStepWindsDown(p, w);
      step := OwnStep(p, w);
    } else if p.lock.Some? {
      var s := HeldBySubmitter(p);
      step := SubmitterWindsDown(p, s);
    } else {
      var w: nat :| w < |p.workers| && !p.workers[w].Exited?;
      if p.workers[w].Waiting? {
        SignalWindsDown(p, w);
        step := StopSignal(Some(w));
      } else {
        OwnStepWindsDown(p, w);
        step := OwnStep(p, w);
      }
    }
  }

  /** Needs nobody else to go on. */
  predicate Free(w: Worker) {
    !w.Exited? && !w.Waiting? && !w.AtLock? && !w.Woken?
  }

  lemma HolderIsFree(p: Pool)
    requires Ok(p)
    ensures p.lock.Some? && p.lock.value.ByWorker? ==> p.lock.value.w < |p.workers| && Free(p.workers[p.lock.value.w])
  {
    if p.lock.Some? && p.lock.value.ByWorker? {
      assert WorkerInside(p.workers[p.lock.value.w]);
    }
  }

  lemma HeldBySubmitter(p: Pool) returns (s: nat)
    requires Ok(p) && p.lock.Some? && forall w | 0 <= w < |p.workers| :: !Free(p.workers[w])
    ensures p.lock == Some(BySubmitter(s))
  {
    HolderIsFree(p);
    s := p.lock.value.s;
  }

  lemma {:induction false} WindsDown(p: Pool)
    requires WindingDown(p)
    ensures CanEnd(p)
    decreases AllStops(p.workers), ToRelease(p)
  {
    if AllExited(p) {
      assert QuietRun(p, [], p);
    } else {
      var step := SomeoneMoves(p);
      WindsDown(Apply(p, step));
      StepTowardsEnd(p, step);
    }
  }

  // ----- A queued job on the way down -----

  /** A worker that will look at the queue before it can come to its end. */
  predicate Committed(w: Worker) {
    NeedsSignal(w) || PastWait(w)
  }

  /** The job is next in the queue, and somebody is committed to looking there. */
  ghost predicate Due(p: Pool) {
    p.queue != [] && SomeWorker(p, Committed)
  }

  lemma DueStep(p: Pool, step: Step)
    requires Ok(p) && Due(p) && Enabled(p, step) && !step.Pop?
    ensures Due(Apply(p, step)) && Apply(p, step).taken == p.taken && Apply(p, step).queue[0] == p.queue[0]
  {
    var w: nat :| w < |p.workers| && Committed(p.workers[w]);
    QueueKeepsHead(p, step);
    assert Committed(Apply(p, step).workers[w]);
  }

  /** Nothing has been taken since, and somebody is still committed. */
  ghost predicate StillDue(p: Pool, q: Pool)
    requires p.queue != []
  {
    Due(q) && q.taken == p.taken && q.queue[0] == p.queue[0]
  }

  /** Along any run at all, the job is taken next or somebody is still committed to it. */
  lemma {:induction false} DueRun(p: Pool, steps: seq<Step>, q: Pool)
    requires Ok(p) && Due(p) && Run(p, steps, q)
    ensures TookHead(p, q) || StillDue(p, q)
    decreases |steps|
  {
    if steps != [] {
      var next := Apply(p, steps[0]);
      if steps[0].Pop? {
        PopTakesHead(p, steps[0]);
        TakenGrows(next, steps[1..], q);
        assert q.taken[|p.taken|] == next.taken[|p.taken|];
      } else {
        StepKeepsOk(p, steps[0]);
        DueStep(p, steps[0]);
        DueRun(next, steps[1..], q);
      }
    }
  }

  // ----- The destructor -----

  lemma StopWindsDown(p: Pool)
    requires Ok(p) && p.active
    ensures Enabled(p, Stop) && WindingDown(Apply(p, Stop)) && Apply(p, Stop).workers == p.workers
    ensures Apply(p, Stop).queue == p.queue && Apply(p, Stop).taken == p.taken
  {
    StepKeepsOk(p, Stop);
    AtMostAll(p.workers);
  }

  lemma ReachableStop(workers: nat, submitters: nat, p: Pool)
    requires Reachable(workers, submitters, p) && p.active
    ensures Shaped(p) && Enabled(p, Stop) && WindingDown(Apply(p, Stop)) && Apply(p, Stop).workers == p.workers
    ensures Apply(p, Stop).queue == p.queue && Apply(p, Stop).taken == p.taken
  {
    ReachableOk(workers, submitters, p);
    StopWindsDown(p);
  }

  /**
   * From every reachable pool whose flag is set, for any number of threads: the destructor can clear
   * the flag, and then some continuation without spurious wakeups or new submissions brings every
   * worker to its end; and in it a job that was queued while some worker was waiting, on its way
   * there, or past the wait, is taken next.
   */
  lemma StopLetsAllEnd(workers: nat, submitters: nat, p: Pool) returns (steps: seq<Step>, q: Pool)
    requires Reachable(workers, submitters, p) && p.active
    ensures Shaped(p) && Enabled(p, Stop) && QuietRun(Apply(p, Stop), steps, q) && AllExited(q)
    ensures p.queue != [] && SomeWorker(p, Committed) ==> TookHead(p, q)
  {
    ReachableStop(workers, submitters, p);
    WindsDown(Apply(p, Stop));
    steps, q :| QuietRun(Apply(p, Stop), steps, q) && AllExited(q);
    if p.queue != [] && SomeWorker(p, Committed) {
      EveryEndTakesHead(workers, submitters, p, steps, q);
    }
  }

  /** Such a job is taken on every way to the end of all workers, whatever else happens on it. */
  lemma EveryEndTakesHead(workers: nat, submitters: nat, p: Pool, steps: seq<Step>, q: Pool)
    requires Reachable(workers, submitters, p) && p.active && p.queue != [] && SomeWorker(p, Committed)
    requires Shaped(p) && Run(Apply(p, Stop), steps, q) && AllExited(q)
    ensures TookHead(p, q)
  {
    ReachableStop(workers, submitters, p);
    EndTakesHead(Apply(p, Stop), steps, q);
  }

  /** A run to the end of all workers takes a job that somebody is committed to. */
  lemma EndTakesHead(p: Pool, steps: seq<Step>, q: Pool)
    requires Ok(p) && Due(p) && Run(p, steps, q) && AllExited(q)
    ensures TookHead(p, q)
  {
    DueRun(p, steps, q);
  }
}
