/**
 The thread pool as interleaved atomic steps. A mutex section is cut wherever another thread
 could observe the difference: before and after the lock, between the test of the wait
 predicate and going to sleep, and, because `run` is cleared without the mutex, between
 every read of `run` and what follows from it.
 */
module ThreadPools {
  import opened Options

  /**
   A worker waits for the mutex; holds it, about to test the wait predicate; holds it, having
   found nothing to do, about to sleep; sleeps; holds it, about to leave or pop; runs a task;
   holds it, its promise set; or has returned.
   */
  datatype Worker = AtLock | Locked | Blocking | Asleep | Ready | Running(task: nat) | Leaving | Exited

  /**
   One call of `enqueue`, whose number also names its task: before the lock; inside;
   inside, having seen `run`; outside, about to notify; returned.
   */
  datatype Producer = Calling | Inside | Admitting | Notifying(pushed: bool) | Returned

  /** `stop(true)`: not called, flag cleared, `i` futures waited for, all threads joined. */
  datatype Stopper = Idle | Flagged | Waiting(i: nat) | Stopped

  datatype Owner = Free | OfWorker(i: nat) | OfProducer(j: nat)

  /** Shared fields, threads, and the history of tasks: accepted, popped, finished. */
  datatype State = State(
    run: bool, queue: seq<nat>, mutex: Owner,
    workers: seq<Worker>, futures: seq<bool>, producers: seq<Producer>, stopper: Stopper,
    accepted: seq<nat>, popped: seq<nat>, finished: seq<nat>)

  datatype Step =
    | Call
    | Acquire(i: nat) | Test(i: nat) | Block(i: nat) | SpuriousWake(i: nat) | Decide(i: nat) | CopyThrows(i: nat)
    | Finish(i: nat, threw: bool) | Leave(i: nat)
    | Enter(j: nat) | ReadRun(j: nat) | Push(j: nat) | PushThrows(j: nat) | Notify(j: nat, i: nat)
    | StopFlag | StopNotify | StopWait | StopJoin

  function Init(n: nat): State {
    State(true, [], Free, seq(n, _ => AtLock), seq(n, _ => false), [], Idle, [], [], [])
  }

  predicate SomeAsleep(workers: seq<Worker>) {
    Asleep in workers
  }

  /** A notification wakes one of the sleepers if there is any. */
  predicate CanWake(s: State, k: nat) {
    SomeAsleep(s.workers) ==> k < |s.workers| && s.workers[k].Asleep?
  }

  /** The test before leaving the loop. */
  predicate Drained(s: State) {
    !s.run && s.queue == []
  }

  predicate Enabled(s: State, step: Step) {
    match step
    case Call => true
    case Acquire(i) => i < |s.workers| && s.workers[i].AtLock? && s.mutex.Free?
    case Test(i) => i < |s.workers| && s.workers[i].Locked?
    case Block(i) => i < |s.workers| && s.workers[i].Blocking?
    case SpuriousWake(i) => i < |s.workers| && s.workers[i].Asleep?
    case Decide(i) => i < |s.workers| && s.workers[i].Ready?
    case CopyThrows(i) => i < |s.workers| && s.workers[i].Ready? && !Drained(s)
    case Finish(i, _) => i < |s.workers| && s.workers[i].Running?
    case Leave(i) => i < |s.workers| && s.workers[i].Leaving?
    case Enter(j) => j < |s.producers| && s.producers[j].Calling? && s.mutex.Free?
    case ReadRun(j) => j < |s.producers| && s.producers[j].Inside?
    case Push(j) => j < |s.producers| && s.producers[j].Admitting?
    case PushThrows(j) => j < |s.producers| && s.producers[j].Admitting?
    case Notify(j, i) => j < |s.producers| && s.producers[j].Notifying? && CanWake(s, i)
    case StopFlag => s.stopper.Idle? && s.run
    case StopNotify => s.stopper.Flagged?
    case StopWait => s.stopper.Waiting? && s.stopper.i < |s.futures| && s.futures[s.stopper.i]
    case StopJoin => s.stopper.Waiting? && s.stopper.i == |s.futures| && forall w :: w in s.workers ==> w.Exited?
  }

  function WakeAll(workers: seq<Worker>): (r: seq<Worker>)
    ensures |r| == |workers|
    ensures forall i :: 0 <= i < |r| ==> r[i] == if workers[i].Asleep? then AtLock else workers[i]
  {
    seq(|workers|, i requires 0 <= i < |workers| => if workers[i].Asleep? then AtLock else workers[i])
  }

  /** Pop the front task into worker `i`, or let it leave when the pool is drained. */
  function DecideStep(s: State, i: nat): State
    requires i < |s.workers| == |s.futures|
  {
    if Drained(s) then s.(workers := s.workers[i := Leaving], futures := s.futures[i := true])
    else if s.queue == [] then s
    else s.(mutex := Free, workers := s.workers[i := Running(s.queue[0])],
            queue := s.queue[1..], popped := s.popped + [s.queue[0]])
  }

  function Apply(s: State, step: Step): State
    requires Enabled(s, step) && |s.futures| == |s.workers|
  {
    match step
    case Call => s.(producers := s.producers + [Calling])
    case Acquire(i) => s.(mutex := OfWorker(i), workers := s.workers[i := Locked])
    case Test(i) => s.(workers := s.workers[i := if !s.run || s.queue != [] then Ready else Blocking])
    case Block(i) => s.(mutex := Free, workers := s.workers[i := Asleep])
    case SpuriousWake(i) => s.(workers := s.workers[i := AtLock])
    case Decide(i) => DecideStep(s, i)
    case CopyThrows(i) => s.(mutex := Free, workers := s.workers[i := AtLock])
    case Finish(i, _) => s.(workers := s.workers[i := AtLock], finished := s.finished + [s.workers[i].task])
    case Leave(i) => s.(mutex := Free, workers := s.workers[i := Exited])
    case Enter(j) => s.(mutex := OfProducer(j), producers := s.producers[j := Inside])
    case ReadRun(j) =>
      if s.run then s.(producers := s.producers[j := Admitting])
      else s.(mutex := Free, producers := s.producers[j := Notifying(false)])
    case Push(j) =>
      s.(mutex := Free, producers := s.producers[j := Notifying(true)],
         queue := s.queue + [j], accepted := s.accepted + [j])
    case PushThrows(j) => s.(mutex := Free, producers := s.producers[j := Returned])
    case Notify(j, i) =>
      s.(producers := s.producers[j := Returned],
         workers := if SomeAsleep(s.workers) then s.workers[i := AtLock] else s.workers)
    case StopFlag => s.(run := false, stopper := Flagged)
    case StopNotify => s.(workers := WakeAll(s.workers), stopper := Waiting(0))
    case StopWait => s.(stopper := Waiting(s.stopper.i + 1))
    case StopJoin => s.(stopper := Stopped)
  }

  ghost predicate Reaches(s: State, steps: seq<Step>, t: State)
    decreases |steps|
  {
    if steps == [] then s == t
    else |s.futures| == |s.workers| && Enabled(s, steps[0]) && Reaches(Apply(s, steps[0]), steps[1..], t)
  }

  // ---------- counting ----------

  function Count<T(!new)>(p: T -> bool, s: seq<T>): nat {
    if s == [] then 0 else Count(p, s[..|s| - 1]) + One(p(s[|s| - 1]))
  }

  function One(b: bool): nat {
    if b then 1 else 0
  }

  lemma {:induction false} CountUpdate<T(!new)>(p: T -> bool, s: seq<T>, i: nat, x: T)
    requires i < |s|
    ensures Count(p, s[i := x]) + One(p(s[i])) == Count(p, s) + One(p(x))
  {
    var front := s[..|s| - 1];
    if i == |s| - 1 {
      assert s[i := x][..|s| - 1] == front;
    } else {
      assert s[i := x][..|s| - 1] == front[i := x];
      CountUpdate(p, front, i, x);
    }
  }

  lemma CountPush<T(!new)>(p: T -> bool, s: seq<T>, x: T)
    ensures Count(p, s + [x]) == Count(p, s) + One(p(x))
  {
    assert (s + [x])[..|s|] == s;
  }

  /** How many workers are running task `t`. */
  function Runs(t: nat, workers: seq<Worker>): nat {
    if workers == [] then 0 else Runs(t, workers[..|workers| - 1]) + One(workers[|workers| - 1] == Running(t))
  }

  lemma {:induction false} RunsUpdate(t: nat, s: seq<Worker>, i: nat, w: Worker)
    requires i < |s|
    ensures Runs(t, s[i := w]) + One(s[i] == Running(t)) == Runs(t, s) + One(w == Running(t))
  {
    var front := s[..|s| - 1];
    if i == |s| - 1 {
      assert s[i := w][..|s| - 1] == front;
    } else {
      assert s[i := w][..|s| - 1] == front[i := w];
      RunsUpdate(t, front, i, w);
    }
  }

  lemma {:induction false} RunsNone(t: nat, s: seq<Worker>)
    requires forall w :: w in s ==> !w.Running?
    ensures Runs(t, s) == 0
  {
    if s != [] {
      RunsNone(t, s[..|s| - 1]);
    }
  }

  lemma {:induction false} RunsWakeAll(t: nat, s: seq<Worker>)
    ensures Runs(t, WakeAll(s)) == Runs(t, s)
  {
    if s != [] {
      assert WakeAll(s)[..|s| - 1] == WakeAll(s[..|s| - 1]);
      RunsWakeAll(t, s[..|s| - 1]);
    }
  }

  // ---------- the invariant ----------

  predicate HoldsLock(w: Worker) {
    w.Locked? || w.Blocking? || w.Ready? || w.Leaving?
  }

  predicate InsideLock(p: Producer) {
    p.Inside? || p.Admitting?
  }

  /** The mutex has at most one owner, and the owner knows. */
  ghost predicate Exclusion(s: State) {
    && (forall i :: 0 <= i < |s.workers| ==> (HoldsLock(s.workers[i]) <==> s.mutex == OfWorker(i)))
    && (forall j :: 0 <= j < |s.producers| ==> (InsideLock(s.producers[j]) <==> s.mutex == OfProducer(j)))
    && (s.mutex.OfWorker? ==> s.mutex.i < |s.workers|)
    && (s.mutex.OfProducer? ==> s.mutex.j < |s.producers|)
  }

  predicate Gone(w: Worker) {
    w.Leaving? || w.Exited?
  }

  /** What a worker's position says about the shared state, for as long as it is there. */
  ghost predicate Places(s: State)
    requires |s.futures| == |s.workers|
  {
    forall i :: 0 <= i < |s.workers| ==>
      && (s.workers[i].Blocking? ==> s.queue == [])
      && (s.workers[i].Ready? ==> !s.run || s.queue != [])
      && (s.futures[i] <==> Gone(s.workers[i]))
      && (Gone(s.workers[i]) ==> Drained(s))
  }

  /** Once a worker has returned, no call is past its test of `run`. */
  ghost predicate Admission(s: State) {
    forall i, j :: 0 <= i < |s.workers| && 0 <= j < |s.producers| && s.workers[i].Exited? ==> !s.producers[j].Admitting?
  }

  ghost predicate Positions(s: State) {
    |s.futures| == |s.workers| && Places(s) && Admission(s)
  }

  predicate Checks(w: Worker) {
    w.AtLock? || w.Locked? || w.Ready?
  }

  predicate OwesNotify(p: Producer) {
    p == Notifying(true)
  }

  /** A sleeping worker leaves no queued task without a worker about to look or a notification due. */
  ghost predicate WorkConserved(s: State) {
    SomeAsleep(s.workers) ==> |s.queue| <= Count(Checks, s.workers) + Count(OwesNotify, s.producers)
  }

  ghost predicate Distinct(s: seq<nat>) {
    forall a, b :: 0 <= a < b < |s| ==> s[a] != s[b]
  }

  /** Tasks are popped in the order in which they were accepted. */
  ghost predicate Fifo(s: State) {
    s.accepted == s.popped + s.queue
  }

  /** Every popped task is being run or has finished, once. */
  ghost predicate Balance(s: State) {
    forall t: nat :: Balanced(t, s)
  }

  ghost predicate Balanced(t: nat, s: State) {
    multiset(s.popped)[t] == Runs(t, s.workers) + multiset(s.finished)[t]
  }

  /** No call of `enqueue` is accepted twice. */
  ghost predicate NoneTwice(s: State) {
    && Distinct(s.accepted)
    && (forall j :: j in s.accepted ==> j < |s.producers| && (s.producers[j].Notifying? || s.producers[j].Returned?))
  }

  ghost predicate Stopping(s: State) {
    && (s.run <==> s.stopper.Idle?)
    && (s.stopper.Waiting? ==> s.stopper.i <= |s.futures| && forall k :: 0 <= k < s.stopper.i ==> s.futures[k])
    && (s.stopper.Stopped? ==> forall w :: w in s.workers ==> w.Exited?)
  }

  ghost predicate Inv(s: State) {
    Exclusion(s) && Positions(s) && WorkConserved(s) && Fifo(s) && Balance(s) && NoneTwice(s) && Stopping(s)
  }

  lemma InitInv(n: nat)
    ensures Inv(Init(n))
  {
    forall t: nat ensures Balanced(t, Init(n)) {
      RunsNone(t, Init(n).workers);
    }
  }

  // Steps by kind: sleeping and waking, working, calling, admitting, stopping.

  predicate Waits(step: Step) {
    step.Acquire? || step.Test? || step.Block? || step.SpuriousWake?
  }

  predicate Works(step: Step) {
    step.Decide? || step.CopyThrows? || step.Finish? || step.Leave?
  }

  lemma ExclusionKept(s: State, step: Step)
    requires Exclusion(s) && |s.futures| == |s.workers| && Enabled(s, step)
    ensures Exclusion(Apply(s, step))
  {
    hide Exclusion, Apply;
    if Waits(step) {
      ExclusionWhileWaiting(s, step);
    } else if Works(step) {
      ExclusionWhileWorking(s, step);
    } else {
      ExclusionOtherwise(s, step);
    }
  }

  lemma ExclusionOtherwise(s: State, step: Step)
    requires Exclusion(s) && |s.futures| == |s.workers| && Enabled(s, step) && !Waits(step) && !Works(step)
    ensures Exclusion(Apply(s, step))
  {
  }

  lemma ExclusionWhileWaiting(s: State, step: Step)
    requires Exclusion(s) && |s.futures| == |s.workers| && Enabled(s, step) && Waits(step)
    ensures Exclusion(Apply(s, step))
  {
  }

  lemma ExclusionWhileWorking(s: State, step: Step)
    requires Exclusion(s) && |s.futures| == |s.workers| && Enabled(s, step) && Works(step)
    ensures Exclusion(Apply(s, step))
  {
  }

  lemma PositionsKept(s: State, step: Step)
    requires Exclusion(s) && Positions(s) && Enabled(s, step)
    ensures Positions(Apply(s, step))
  {
    if Waits(step) {
      PlacesWhileWaiting(s, step);
    } else if Works(step) {
      PlacesWhileWorking(s, step);
    } else {
      PlacesOtherwise(s, step);
    }
    AdmissionKept(s, step);
  }

  lemma PlacesWhileWaiting(s: State, step: Step)
    requires Exclusion(s) && Positions(s) && Enabled(s, step) && Waits(step)
    ensures |Apply(s, step).futures| == |Apply(s, step).workers| && Places(Apply(s, step))
  {
  }

  lemma PlacesWhileWorking(s: State, step: Step)
    requires Exclusion(s) && Positions(s) && Enabled(s, step) && Works(step)
    ensures |Apply(s, step).futures| == |Apply(s, step).workers| && Places(Apply(s, step))
  {
  }

  lemma PlacesOtherwise(s: State, step: Step)
    requires Exclusion(s) && Positions(s) && Enabled(s, step) && !Waits(step) && !Works(step)
    ensures |Apply(s, step).futures| == |Apply(s, step).workers| && Places(Apply(s, step))
  {
  }

  lemma AdmissionKept(s: State, step: Step)
    requires Exclusion(s) && Positions(s) && Enabled(s, step)
    ensures Admission(Apply(s, step))
  {
  }

  lemma AsleepUpdate(workers: seq<Worker>, i: nat, w: Worker)
    requires i < |workers| && SomeAsleep(workers[i := w])
    ensures SomeAsleep(workers) || w.Asleep?
  {
    var k :| 0 <= k < |workers| && workers[i := w][k] == Asleep;
    if k != i {
      assert workers[k] == Asleep;
    }
  }

  lemma WorkKept(s: State, step: Step)
    requires Inv(s) && Enabled(s, step)
    ensures WorkConserved(Apply(s, step))
  {
    if Waits(step) || Works(step) {
      WorkKeptByWorker(s, step);
    } else {
      WorkKeptByCaller(s, step);
    }
  }

  lemma WorkKeptByWorker(s: State, step: Step)
    requires Positions(s) && WorkConserved(s) && Enabled(s, step) && (Waits(step) || Works(step))
    ensures WorkConserved(Apply(s, step))
  {
    WorkerMoves(s, step.i, Apply(s, step).workers[step.i]);
  }

  lemma WorkKeptByCaller(s: State, step: Step)
    requires Positions(s) && WorkConserved(s) && Enabled(s, step) && !Waits(step) && !Works(step)
    ensures WorkConserved(Apply(s, step))
  {
    var t := Apply(s, step);
    match step
    case Call => CountPush(OwesNotify, s.producers, Calling);
    case Enter(j) => CountUpdate(OwesNotify, s.producers, j, t.producers[j]);
    case ReadRun(j) => CountUpdate(OwesNotify, s.producers, j, t.producers[j]);
    case Push(j) => CountUpdate(OwesNotify, s.producers, j, t.producers[j]);
    case PushThrows(j) => CountUpdate(OwesNotify, s.producers, j, t.producers[j]);
    case Notify(j, i) =>
      CountUpdate(OwesNotify, s.producers, j, Returned);
      if SomeAsleep(s.workers) {
        WorkerMoves(s, i, AtLock);
      }
    case _ =>
  }

  lemma WorkerMoves(s: State, i: nat, w: Worker)
    requires i < |s.workers|
    ensures Count(Checks, s.workers[i := w]) + One(Checks(s.workers[i])) == Count(Checks, s.workers) + One(Checks(w))
    ensures SomeAsleep(s.workers[i := w]) ==> SomeAsleep(s.workers) || w.Asleep?
  {
    CountUpdate(Checks, s.workers, i, w);
    if SomeAsleep(s.workers[i := w]) {
      AsleepUpdate(s.workers, i, w);
    }
  }

  lemma FifoKept(s: State, step: Step)
    requires Fifo(s) && |s.futures| == |s.workers| && Enabled(s, step)
    ensures Fifo(Apply(s, step))
  {
    match step
    case Decide(_) =>
      if s.queue != [] {
        assert s.popped + s.queue == s.popped + [s.queue[0]] + s.queue[1..];
      }
    case Push(j) =>
      assert s.popped + s.queue + [j] == s.popped + (s.queue + [j]);
    case _ =>
  }

  lemma BalanceKept(s: State, step: Step)
    requires Balance(s) && |s.futures| == |s.workers| && Enabled(s, step)
    ensures Balance(Apply(s, step))
  {
    forall t: nat ensures Balanced(t, Apply(s, step)) {
      assert Balanced(t, s);
      BalancedKept(t, s, step);
    }
  }

  lemma BalancedKept(t: nat, s: State, step: Step)
    requires Balanced(t, s) && |s.futures| == |s.workers| && Enabled(s, step)
    ensures Balanced(t, Apply(s, step))
  {
    if Waits(step) {
      BalancedWhileWaiting(t, s, step);
    } else {
      BalancedOtherwise(t, s, step);
    }
  }

  lemma BalancedWhileWaiting(t: nat, s: State, step: Step)
    requires Balanced(t, s) && |s.futures| == |s.workers| && Enabled(s, step) && Waits(step)
    ensures Balanced(t, Apply(s, step))
  {
    hide Runs;
    RunsUpdate(t, s.workers, step.i, Apply(s, step).workers[step.i]);
  }

  lemma BalancedOtherwise(t: nat, s: State, step: Step)
    requires Balanced(t, s) && |s.futures| == |s.workers| && Enabled(s, step) && !Waits(step)
    ensures Balanced(t, Apply(s, step))
  {
    hide Runs, Drained;
    match step
    case Decide(i) => DecideBalanced(t, s, i);
    case CopyThrows(i) => RunsUpdate(t, s.workers, i, AtLock);
    case Finish(i, _) =>
      RunsUpdate(t, s.workers, i, AtLock);
      MultisetPush(s.finished, s.workers[i].task);
    case Leave(i) => RunsUpdate(t, s.workers, i, Exited);
    case Notify(j, i) =>
      if SomeAsleep(s.workers) {
        RunsUpdate(t, s.workers, i, AtLock);
      }
    case StopNotify => RunsWakeAll(t, s.workers);
    case _ =>
  }

  lemma DecideBalanced(t: nat, s: State, i: nat)
    requires Balanced(t, s) && |s.futures| == |s.workers| && i < |s.workers| && s.workers[i].Ready?
    ensures Balanced(t, DecideStep(s, i))
  {
    if Drained(s) {
      RunsUpdate(t, s.workers, i, Leaving);
    } else if s.queue != [] {
      RunsUpdate(t, s.workers, i, Running(s.queue[0]));
      MultisetPush(s.popped, s.queue[0]);
    }
  }

  lemma MultisetPush(s: seq<nat>, x: nat)
    ensures forall t: nat :: multiset(s + [x])[t] == multiset(s)[t] + One(t == x)
  {
  }

  lemma NoneTwiceKept(s: State, step: Step)
    requires NoneTwice(s) && |s.futures| == |s.workers| && Enabled(s, step)
    ensures NoneTwice(Apply(s, step))
  {
  }

  lemma StoppingKept(s: State, step: Step)
    requires Inv(s) && Enabled(s, step)
    ensures Stopping(Apply(s, step))
  {
  }

  lemma InvKept(s: State, step: Step)
    requires Inv(s) && Enabled(s, step)
    ensures Inv(Apply(s, step))
  {
    ExclusionKept(s, step);
    PositionsKept(s, step);
    WorkKept(s, step);
    FifoKept(s, step);
    BalanceKept(s, step);
    NoneTwiceKept(s, step);
    StoppingKept(s, step);
  }

  // ---------- whole runs ----------

  lemma {:induction false} InvOverRun(s: State, steps: seq<Step>, t: State)
    requires Inv(s) && Reaches(s, steps, t)
    ensures Inv(t) && |t.workers| == |s.workers|
    decreases |steps|
  {
    if steps != [] {
      InvKept(s, steps[0]);
      InvOverRun(Apply(s, steps[0]), steps[1..], t);
    }
  }

  /** Every reachable state of a pool of `n` workers. */
  ghost predicate Reachable(n: nat, t: State) {
    exists steps :: Reaches(Init(n), steps, t)
  }

  lemma ReachableInv(n: nat, t: State)
    requires Reachable(n, t)
    ensures Inv(t) && |t.workers| == n
  {
    var steps :| Reaches(Init(n), steps, t);
    InitInv(n);
    InvOverRun(Init(n), steps, t);
  }

  /** No worker is about to look at the queue and no notification is due. */
  ghost predicate NobodyActs(t: State) {
    (forall w :: w in t.workers ==> !Checks(w)) && (forall p :: p in t.producers ==> !OwesNotify(p))
  }

  /**
   Work conservation, and what it is for: when no worker is about to look at the queue and no
   notification is due, a sleeping worker means an empty queue. No wake-up is lost.
   */
  lemma NoLostWakeUp(n: nat, t: State)
    requires Reachable(n, t)
    ensures SomeAsleep(t.workers) ==> |t.queue| <= Count(Checks, t.workers) + Count(OwesNotify, t.producers)
    ensures SomeAsleep(t.workers) && NobodyActs(t) ==> t.queue == []
  {
    ReachableInv(n, t);
    if NobodyActs(t) {
      CountNone(Checks, t.workers);
      CountNone(OwesNotify, t.producers);
    }
  }

  lemma {:induction false} CountNone<T(!new)>(p: T -> bool, s: seq<T>)
    requires forall x :: x in s ==> !p(x)
    ensures Count(p, s) == 0
  {
    if s != [] {
      CountNone(p, s[..|s| - 1]);
    }
  }

  /** Exactly one in every reachable state: a task is queued, in flight, or finished. */
  lemma EachTaskOnce(n: nat, t: State, task: nat)
    requires Reachable(n, t)
    ensures t.accepted == t.popped + t.queue
    ensures multiset(t.queue)[task] + Runs(task, t.workers) + multiset(t.finished)[task] == One(task in t.accepted)
  {
    ReachableInv(n, t);
    OnePlace(t, task);
  }

  /** Call `j` has got past its test of `run` and, if admitted, its push. */
  predicate Passed(s: State, j: nat) {
    j < |s.producers| && (s.producers[j].Notifying? || s.producers[j].Returned?)
  }

  lemma StepAccepts(s: State, step: Step, j: nat)
    requires Inv(s) && Enabled(s, step) && step != PushThrows(j) && (Passed(s, j) ==> j in s.accepted)
    requires |s.futures| == |s.workers| && Apply(s, step).run
    ensures s.run && (Passed(Apply(s, step), j) ==> j in Apply(s, step).accepted)
  {
  }

  lemma {:induction false} RunStaysCleared(s: State, steps: seq<Step>, t: State)
    requires Reaches(s, steps, t) && t.run
    ensures s.run
    decreases |steps|
  {
    if steps != [] {
      RunStaysCleared(Apply(s, steps[0]), steps[1..], t);
    }
  }

  lemma {:induction false} RunAccepts(s: State, steps: seq<Step>, t: State, j: nat)
    requires Inv(s) && Reaches(s, steps, t) && t.run && PushThrows(j) !in steps
    requires Passed(s, j) ==> j in s.accepted
    ensures Passed(t, j) ==> j in t.accepted
    decreases |steps|
  {
    if steps != [] {
      RunStaysCleared(Apply(s, steps[0]), steps[1..], t);
      InvKept(s, steps[0]);
      StepAccepts(s, steps[0], j);
      RunAccepts(Apply(s, steps[0]), steps[1..], t, j);
    }
  }

  /**
   While the pool runs, a call the push of which does not throw has its task accepted exactly
   when it is past its critical section, whatever the queue and the workers look like.
   */
  lemma RunningPoolAcceptsExactlyWhen(n: nat, steps: seq<Step>, t: State, j: nat)
    requires Reaches(Init(n), steps, t) && t.run && PushThrows(j) !in steps
    ensures j in t.accepted <==> Passed(t, j)
  {
    InitInv(n);
    RunAccepts(Init(n), steps, t, j);
    InvOverRun(Init(n), steps, t);
  }

  lemma OnePlace(t: State, task: nat)
    requires Inv(t)
    ensures multiset(t.queue)[task] + Runs(task, t.workers) + multiset(t.finished)[task] == One(task in t.accepted)
  {
    assert Balanced(task, t);
    OnceIfDistinct(t.accepted, task);
    assert multiset(t.popped + t.queue) == multiset(t.popped) + multiset(t.queue);
  }

  lemma {:induction false} OnceIfDistinct(s: seq<nat>, x: nat)
    requires Distinct(s)
    ensures multiset(s)[x] == One(x in s)
  {
    if s != [] {
      var front, last := s[..|s| - 1], s[|s| - 1];
      assert s == front + [last];
      OnceIfDistinct(front, x);
      assert last !in front;
    }
  }

  /** All the waits of `stop(true)` are over. */
  predicate WaitsOver(t: State) {
    t.stopper.Stopped? || (t.stopper.Waiting? && t.stopper.i == |t.futures|)
  }

  /** Once `stop(true)` has waited for every future, every accepted task has finished exactly once. */
  lemma StopDrains(n: nat, t: State)
    requires n >= 1 && Reachable(n, t) && WaitsOver(t)
    ensures t.queue == [] && multiset(t.finished) == multiset(t.accepted)
    ensures forall task: nat :: multiset(t.finished)[task] == One(task in t.accepted)
  {
    ReachableInv(n, t);
    DrainedWhenStopped(t);
  }

  lemma DrainedWhenStopped(t: State)
    requires Inv(t) && |t.workers| >= 1 && WaitsOver(t)
    ensures t.queue == [] && multiset(t.finished) == multiset(t.accepted)
    ensures forall task: nat :: multiset(t.finished)[task] == One(task in t.accepted)
  {
    assert Gone(t.workers[0]) by {
      if t.stopper.Stopped? { assert t.workers[0] in t.workers; } else { assert t.futures[0]; }
    }
    forall w | w in t.workers ensures !w.Running? {
      var i :| 0 <= i < |t.workers| && t.workers[i] == w;
      assert t.futures[i] || w.Exited?;
    }
    forall task: nat ensures multiset(t.finished)[task] == One(task in t.accepted) {
      OnePlace(t, task);
      RunsNone(task, t.workers);
    }
    forall task: nat ensures multiset(t.finished)[task] == multiset(t.accepted)[task] {
      OnceIfDistinct(t.accepted, task);
    }
  }

  lemma ReachableNext(s: State, step: Step, next: State, n: nat)
    requires Reachable(n, s) && |s.futures| == |s.workers| && Enabled(s, step) && next == Apply(s, step)
    ensures Reachable(n, next)
  {
    hide Apply, Enabled;
    var steps :| Reaches(Init(n), steps, s);
    ReachesSnoc(Init(n), steps, s, step);
  }

  lemma {:induction false} ReachesSnoc(s: State, steps: seq<Step>, t: State, step: Step)
    requires Reaches(s, steps, t) && |t.futures| == |t.workers| && Enabled(t, step)
    ensures Reaches(s, steps + [step], Apply(t, step))
    decreases |steps|
  {
    hide Apply, Enabled;
    if steps == [] {
      assert [] + [step] == [step] && [step][1..] == [];
      assert Reaches(Apply(t, step), [], Apply(t, step));
    } else {
      assert (steps + [step])[1..] == steps[1..] + [step];
      ReachesSnoc(Apply(s, steps[0]), steps[1..], t, step);
    }
  }

  /** A pool without workers still lets a call into the lock, and admits it. */
  lemma EmptyPoolAdmits() returns (t: State)
    ensures Reachable(0, t)
    ensures t == State(true, [], OfProducer(0), [], [], [Admitting], Idle, [], [], [])
  {
    var s0 := State(true, [], Free, [], [], [], Idle, [], [], []);
    var s1 := s0.(producers := [Calling]);
    var s2 := s1.(mutex := OfProducer(0), producers := [Inside]);
    t := s2.(producers := [Admitting]);
    assert s0 == Init(0) && Reaches(s0, [], s0);
    ReachableNext(s0, Call, s1, 0);
    ReachableNext(s1, Enter(0), s2, 0);
    ReachableNext(s2, ReadRun(0), t, 0);
  }

  /** Without a worker a pool accepts a task, stops, and never runs it. */
  lemma NoWorkersNoDrain() returns (t: State)
    ensures Reachable(0, t) && WaitsOver(t) && multiset(t.finished) != multiset(t.accepted)
  {
    var s3 := EmptyPoolAdmits();
    var s4 := State(true, [0], Free, [], [], [Notifying(true)], Idle, [0], [], []);
    var s5 := s4.(run := false, stopper := Flagged);
    t := s5.(stopper := Waiting(0));
    ReachableNext(s3, Push(0), s4, 0);
    ReachableNext(s4, StopFlag, s5, 0);
    ReachableNext(s5, StopNotify, t, 0);
    assert multiset(t.accepted)[0] == 1;
  }

  lemma ReachesCons(s: State, step: Step, steps: seq<Step>, t: State)
    requires |s.futures| == |s.workers| && Enabled(s, step) && Reaches(Apply(s, step), steps, t)
    ensures Reaches(s, [step] + steps, t)
  {
    assert ([step] + steps)[1..] == steps;
  }

  /** `stop(true)` drains the pool exactly when the pool has a worker. */
  lemma StopDrainsExactlyWhen(n: nat)
    ensures (forall t :: Reachable(n, t) && WaitsOver(t) ==> multiset(t.finished) == multiset(t.accepted)) <==> n >= 1
  {
    if n >= 1 {
      forall t | Reachable(n, t) && WaitsOver(t) ensures multiset(t.finished) == multiset(t.accepted) {
        StopDrains(n, t);
      }
    } else {
      var t := NoWorkersNoDrain();
    }
  }

  /** Once a worker has left, `run` is false and the queue is empty, then and in all later states; and it stays gone. */
  lemma {:induction false} ExitIsFinal(s: State, steps: seq<Step>, t: State, i: nat)
    requires Inv(s) && Reaches(s, steps, t)
    requires i < |s.workers| && Gone(s.workers[i])
    ensures i < |t.workers| && Gone(t.workers[i]) && Drained(s) && Drained(t) && t.accepted == s.accepted
    decreases |steps|
  {
    if steps != [] {
      InvKept(s, steps[0]);
      GoneStays(s, steps[0], i);
      ExitIsFinal(Apply(s, steps[0]), steps[1..], t, i);
    }
  }

  lemma GoneStays(s: State, step: Step, i: nat)
    requires Inv(s) && Enabled(s, step) && i < |s.workers| && Gone(s.workers[i])
    ensures Gone(Apply(s, step).workers[i]) && Apply(s, step).accepted == s.accepted
  {
  }

  /** The step by which worker `i` sets its promise. */
  predicate Promises(s: State, step: Step, i: nat) {
    step == Decide(i) && Drained(s)
  }

  /** How often worker `i` sets its promise in a run. */
  function PromisesMade(s: State, steps: seq<Step>, i: nat): nat
    decreases |steps|
  {
    if steps == [] || |s.futures| != |s.workers| || !Enabled(s, steps[0]) then 0
    else One(Promises(s, steps[0], i)) + PromisesMade(Apply(s, steps[0]), steps[1..], i)
  }

  lemma {:induction false} PromisesAreFutures(s: State, steps: seq<Step>, t: State, i: nat)
    requires Inv(s) && Reaches(s, steps, t) && i < |s.workers|
    ensures |t.futures| == |t.workers| == |s.workers|
    ensures One(s.futures[i]) + PromisesMade(s, steps, i) == One(t.futures[i])
    decreases |steps|
  {
    if steps != [] {
      InvKept(s, steps[0]);
      PromiseStep(s, steps[0], i);
      PromisesAreFutures(Apply(s, steps[0]), steps[1..], t, i);
    }
  }

  lemma PromiseStep(s: State, step: Step, i: nat)
    requires Inv(s) && Enabled(s, step) && i < |s.workers|
    ensures |Apply(s, step).futures| == |s.workers| == |Apply(s, step).workers|
    ensures One(s.futures[i]) + One(Promises(s, step, i)) == One(Apply(s, step).futures[i])
  {
  }

  /**
   Each future is set exactly when its own worker has left, by that worker, and at most once
   over any run; a task that throws costs no worker.
   */
  lemma FuturesMatchWorkers(n: nat, steps: seq<Step>, t: State, i: nat)
    requires Reaches(Init(n), steps, t) && i < n
    ensures |t.workers| == |t.futures| == n
    ensures t.futures[i] <==> Gone(t.workers[i])
    ensures PromisesMade(Init(n), steps, i) == One(t.futures[i])
  {
    InitInv(n);
    InvOverRun(Init(n), steps, t);
    PromisesAreFutures(Init(n), steps, t, i);
  }

  // ---------- the missed stop notification ----------

  ghost predicate NoneWillSleep(s: State) {
    !s.run && forall w :: w in s.workers ==> !w.Blocking? && !w.Asleep?
  }

  lemma {:induction false} NobodySleepsAgain(s: State, steps: seq<Step>, t: State)
    requires Inv(s) && NoneWillSleep(s) && Reaches(s, steps, t)
    ensures !SomeAsleep(t.workers)
    decreases |steps|
  {
    if steps != [] {
      InvKept(s, steps[0]);
      forall w | w in Apply(s, steps[0]).workers ensures !w.Blocking? && !w.Asleep? {
        var i :| 0 <= i < |s.workers| && Apply(s, steps[0]).workers[i] == w;
        assert s.workers[i] in s.workers;
      }
      NobodySleepsAgain(Apply(s, steps[0]), steps[1..], t);
    }
  }

  /** Some run from here puts a worker to sleep. */
  ghost predicate MaySleep(s: State) {
    exists steps, t :: Reaches(s, steps, t) && SomeAsleep(t.workers)
  }

  /**
   `stop` clears `run` without the mutex. Its notification can miss a worker exactly when, at
   that moment, a worker has already tested the wait predicate and not yet gone to sleep.
   */
  lemma StopNotificationMissedExactlyWhen(n: nat, s: State)
    requires Reachable(n, s) && s.stopper.Flagged?
    ensures |s.futures| == |s.workers|
    ensures MaySleep(Apply(s, StopNotify)) <==> Blocking in s.workers
  {
    ReachableInv(n, s);
    var u := Apply(s, StopNotify);
    InvKept(s, StopNotify);
    if Blocking in s.workers {
      var i :| 0 <= i < |s.workers| && s.workers[i] == Blocking;
      var t := Apply(u, Block(i));
      assert Reaches(t, [], t);
      ReachesCons(u, Block(i), [], t);
      assert t.workers[i] == Asleep;
    } else {
      forall steps, t | Reaches(u, steps, t) ensures !SomeAsleep(t.workers) {
        NobodySleepsAgain(u, steps, t);
      }
    }
  }

  /** A missed worker sleeps on, and `stop` waits, until a spurious wake-up or another `enqueue`. */
  lemma {:induction false} MissedWorkerHangsStop(s: State, steps: seq<Step>, t: State, i: nat)
    requires Inv(s) && Reaches(s, steps, t) && i < |s.workers| && s.workers[i].Asleep? && s.stopper.Waiting?
    requires forall step :: step in steps ==> !step.Notify? && step != SpuriousWake(i)
    ensures i < |t.workers| && t.workers[i].Asleep? && !WaitsOver(t)
    decreases |steps|
  {
    if steps != [] {
      assert steps[0] in steps;
      InvKept(s, steps[0]);
      MissedWorkerHangsStop(Apply(s, steps[0]), steps[1..], t, i);
    }
  }

  /** The only worker has tested the wait predicate when `stop` clears `run`. */
  lemma WorkerMeetsStop() returns (flagged: State)
    ensures Reachable(1, flagged)
    ensures flagged == State(false, [], OfWorker(0), [Blocking], [false], [], Flagged, [], [], [])
  {
    var s0 := State(true, [], Free, [AtLock], [false], [], Idle, [], [], []);
    var s1 := s0.(mutex := OfWorker(0), workers := [Locked]);
    var s2 := s1.(workers := [Blocking]);
    flagged := s2.(run := false, stopper := Flagged);
    assert s0 == Init(1) && Reaches(s0, [], s0);
    ReachableNext(s0, Acquire(0), s1, 1);
    ReachableNext(s1, Test(0), s2, 1);
    ReachableNext(s2, StopFlag, flagged, 1);
  }

  /** `stop` then notifies nobody, and the worker goes to sleep. */
  lemma MissedStopHappens() returns (flagged: State, hung: State)
    ensures Reachable(1, flagged) && flagged.stopper.Flagged? && Blocking in flagged.workers
    ensures Reachable(1, hung) && hung.stopper.Waiting? && hung.workers == [Asleep]
    ensures hung.producers == [] && hung.queue == []
  {
    flagged := WorkerMeetsStop();
    assert flagged.workers[0] == Blocking;
    var s4 := flagged.(stopper := Waiting(0));
    hung := s4.(mutex := Free, workers := [Asleep]);
    ReachableNext(flagged, StopNotify, s4, 1);
    ReachableNext(s4, Block(0), hung, 1);
  }

  /** With no call under way, the worker sleeps on unless something calls `enqueue` or it wakes spuriously. */
  lemma UnnoticedWorkerSleepsOn(n: nat, hung: State, steps: seq<Step>, t: State, i: nat)
    requires Reachable(n, hung) && hung.stopper.Waiting? && i < |hung.workers| && hung.workers[i].Asleep?
    requires hung.producers == [] && Reaches(hung, steps, t)
    requires forall step :: step in steps ==> step != Call && step != SpuriousWake(i)
    ensures i < |t.workers| && t.workers[i].Asleep? && !WaitsOver(t)
  {
    ReachableInv(n, hung);
    NoNotification(hung, steps, t);
    MissedWorkerHangsStop(hung, steps, t, i);
  }

  lemma {:induction false} NoNotification(s: State, steps: seq<Step>, t: State)
    requires s.producers == [] && Reaches(s, steps, t) && Call !in steps
    ensures forall step :: step in steps ==> !step.Notify?
    decreases |steps|
  {
    if steps != [] {
      NoNotification(Apply(s, steps[0]), steps[1..], t);
      assert forall step :: step in steps ==> step == steps[0] || step in steps[1..];
    }
  }

  // ---------- the pool as an object ----------

  /** What worker `i` does next, if it is not blocked. */
  function WorkerStep(s: State, i: nat, fails: bool): Option<Step>
    requires i < |s.workers|
  {
    match s.workers[i]
    case AtLock => if s.mutex.Free? then Some(Acquire(i)) else None
    case Locked => Some(Test(i))
    case Blocking => Some(Block(i))
    case Asleep => if fails then Some(SpuriousWake(i)) else None
    case Ready => Some(if fails && !Drained(s) then CopyThrows(i) else Decide(i))
    case Running(_) => Some(Finish(i, fails))
    case Leaving => Some(Leave(i))
    case Exited => None
  }

  /** What call `j` of `enqueue` does next. */
  function EnqueueStep(s: State, j: nat, fails: bool, sleeper: nat): Option<Step>
    requires j < |s.producers|
  {
    match s.producers[j]
    case Calling => if s.mutex.Free? then Some(Enter(j)) else None
    case Inside => Some(ReadRun(j))
    case Admitting => Some(if fails then PushThrows(j) else Push(j))
    case Notifying(_) => Some(Notify(j, sleeper))
    case Returned => None
  }

  /** What the thread in `stop(true)` does next. */
  function StopStep(s: State): Option<Step> {
    match s.stopper
    case Idle => if s.run then Some(StopFlag) else None
    case Flagged => Some(StopNotify)
    case Waiting(i) =>
      if i < |s.futures| then if s.futures[i] then Some(StopWait) else None
      else if forall w | w in s.workers :: w.Exited? then Some(StopJoin)
      else None
    case Stopped => None
  }

  ghost predicate WorkerTakes(s: State, step: Step) {
    exists i: nat, fails :: i < |s.workers| && WorkerStep(s, i, fails) == Some(step)
  }

  ghost predicate EnqueueTakes(s: State, step: Step) {
    exists j: nat, fails, k: nat :: j < |s.producers| && CanWake(s, k) && EnqueueStep(s, j, fails, k) == Some(step)
  }

  /** The threads' next actions are all there is: a step is enabled exactly when some thread takes it next. */
  lemma StepsAreThreadActions(s: State, step: Step)
    requires Stopping(s)
    ensures Enabled(s, step) <==>
      step.Call? || WorkerTakes(s, step) || EnqueueTakes(s, step) || StopStep(s) == Some(step)
  {
    if Enabled(s, step) {
      match step {
        case Call | StopFlag | StopNotify | StopWait | StopJoin =>
        case Acquire(i) => assert WorkerStep(s, i, false) == Some(step);
        case Test(i) => assert WorkerStep(s, i, false) == Some(step);
        case Block(i) => assert WorkerStep(s, i, false) == Some(step);
        case SpuriousWake(i) => assert WorkerStep(s, i, true) == Some(step);
        case Decide(i) => assert WorkerStep(s, i, false) == Some(step);
        case CopyThrows(i) => assert WorkerStep(s, i, true) == Some(step);
        case Finish(i, threw) => assert WorkerStep(s, i, threw) == Some(step);
        case Leave(i) => assert WorkerStep(s, i, false) == Some(step);
        case Notify(j, i) => assert CanWake(s, i) && EnqueueStep(s, j, false, i) == Some(step);
        case _ =>
          var k := Sleeper(s);
          assert EnqueueStep(s, step.j, step.PushThrows?, k) == Some(step);
      }
    }
  }

  lemma Sleeper(s: State) returns (k: nat)
    ensures CanWake(s, k)
  {
    k := 0;
    if SomeAsleep(s.workers) {
      k :| k < |s.workers| && s.workers[k] == Asleep;
    }
  }

  /**
   The pool's fields, the places its threads have reached, and the history of tasks. Each
   method performs the next atomic action of one thread; it does nothing while that thread is
   blocked. The scheduler may call them in any order.
   */
  class ThreadPool {
    var run: bool
    var queue: seq<nat>
    var mutex: Owner
    var workers: seq<Worker>
    var futures: seq<bool>
    var producers: seq<Producer>
    var stopper: Stopper
    ghost var accepted: seq<nat>
    ghost var popped: seq<nat>
    ghost var finished: seq<nat>

    ghost function View(): State
      reads this
    {
      State(run, queue, mutex, workers, futures, producers, stopper, accepted, popped, finished)
    }

    ghost predicate Valid()
      reads this
    {
      Inv(View())
    }

    constructor (n: nat)
      ensures View() == Init(n) && Valid()
    {
      run, queue, mutex := true, [], Free;
      workers, futures, producers, stopper := seq(n, _ => AtLock), seq(n, _ => false), [], Idle;
      accepted, popped, finished := [], [], [];
      new;
      InitInv(n);
      assert workers == Init(n).workers && futures == Init(n).futures;
    }

    /** The next action of worker `i`; `fails` says whether it meets an exception or, asleep, wakes spuriously. */
    method WorkerAction(i: nat, fails: bool)
      requires Valid() && i < |workers|
      modifies this
      ensures Valid() && |workers| == old(|workers|)
      ensures Takes(old(View()), WorkerStep(old(View()), i, fails), View())
    {
      hide Inv;
      ghost var before := View();
      SizesMatch(before);
      match workers[i] {
      case AtLock =>
        if mutex.Free? {
          mutex := OfWorker(i);
          workers := workers[i := Locked];
        }
      case Locked =>
        workers := workers[i := if !run || queue != [] then Ready else Blocking];
      case Blocking =>
        mutex := Free;
        workers := workers[i := Asleep];
      case Asleep =>
        if fails {
          workers := workers[i := AtLock];
        }
      case Ready =>
        if !run && queue == [] {
          futures := futures[i := true];
          workers := workers[i := Leaving];
        } else if fails {
          mutex := Free;
          workers := workers[i := AtLock];
        } else {
          ReadyHasTask(before, i);
          var task := queue[0];
          queue := queue[1..];
          popped := popped + [task];
          mutex := Free;
          workers := workers[i := Running(task)];
        }
      case Running(task) =>
        finished := finished + [task];
        workers := workers[i := AtLock];
      case Leaving =>
        mutex := Free;
        workers := workers[i := Exited];
      case Exited =>
      }
      StepIsValid(before, WorkerStep(before, i, fails), View());
    }

    /** Begin a call of `enqueue`. */
    method Enqueue() returns (j: nat)
      requires Valid()
      modifies this
      ensures Valid() && Takes(old(View()), Some(Call), View()) && j < |producers| && producers[j].Calling?
    {
      hide Inv;
      ghost var before := View();
      SizesMatch(before);
      j := |producers|;
      producers := producers + [Calling];
      StepIsValid(before, Some(Call), View());
    }

    /** The next action of the `j`-th call; `fails` makes the push throw, `sleeper` is whom a notification wakes. */
    method EnqueueAction(j: nat, fails: bool, sleeper: nat)
      requires Valid() && j < |producers|
      requires CanWake(View(), sleeper)
      modifies this
      ensures Valid()
      ensures Takes(old(View()), EnqueueStep(old(View()), j, fails, sleeper), View())
      ensures old(producers[j]).Inside? ==> producers[j] == if run then Admitting else Notifying(false)
      ensures old(producers[j]).Admitting? && !fails ==> queue == old(queue) + [j] && accepted == old(accepted) + [j]
    {
      hide Inv;
      ghost var before := View();
      SizesMatch(before);
      match producers[j] {
      case Calling =>
        if mutex.Free? {
          mutex := OfProducer(j);
          producers := producers[j := Inside];
        }
      case Inside =>
        if run {
          producers := producers[j := Admitting];
        } else {
          mutex := Free;
          producers := producers[j := Notifying(false)];
        }
      case Admitting =>
        if fails {
          mutex := Free;
          producers := producers[j := Returned];
        } else {
          queue := queue + [j];
          accepted := accepted + [j];
          mutex := Free;
          producers := producers[j := Notifying(true)];
        }
      case Notifying(_) =>
        producers := producers[j := Returned];
        if SomeAsleep(workers) {
          workers := workers[sleeper := AtLock];
        }
      case Returned =>
      }
      StepIsValid(before, EnqueueStep(before, j, fails, sleeper), View());
    }

    /** The next action of the thread in `stop(true)`; when it is done, every accepted task has run once. */
    method StopAction()
      requires Valid()
      modifies this
      ensures Valid() && |workers| == old(|workers|)
      ensures Takes(old(View()), StopStep(old(View())), View())
      ensures old(stopper).Idle? && old(run) ==> !run && stopper.Flagged?
      ensures stopper.Stopped? && |workers| >= 1 ==> queue == [] && multiset(finished) == multiset(accepted)
    {
      hide Inv;
      ghost var before := View();
      SizesMatch(before);
      match stopper {
      case Idle =>
        if run {
          run := false;
          stopper := Flagged;
        }
      case Flagged =>
        workers := WakeAll(workers);
        stopper := Waiting(0);
      case Waiting(i) =>
        WaitsInRange(before);
        if i < |futures| {
          if futures[i] {
            stopper := Waiting(i + 1);
          }
        } else if forall w | w in workers :: w.Exited? {
          stopper := Stopped;
        }
      case Stopped =>
      }
      StepIsValid(before, StopStep(before), View());
      if stopper.Stopped? && |workers| >= 1 {
        DrainedWhenStopped(View());
      }
    }
  }

  /** `t` is `s` after the given step, or `s` itself if there is none to take. */
  ghost predicate Takes(s: State, step: Option<Step>, t: State) {
    match step
    case None => t == s
    case Some(e) => |s.futures| == |s.workers| && Enabled(s, e) && t == Apply(s, e)
  }

  lemma StepIsValid(s: State, step: Option<Step>, t: State)
    requires Inv(s) && Takes(s, step, t)
    ensures Inv(t)
  {
    if step.Some? {
      InvKept(s, step.value);
    }
  }

  lemma SizesMatch(s: State)
    requires Inv(s)
    ensures |s.futures| == |s.workers|
  {
  }

  lemma ReadyHasTask(s: State, i: nat)
    requires Inv(s) && i < |s.workers| && s.workers[i].Ready? && !Drained(s)
    ensures s.queue != []
  {
  }

  lemma WaitsInRange(s: State)
    requires Inv(s) && s.stopper.Waiting?
    ensures s.stopper.i <= |s.futures|
  {
  }
}
