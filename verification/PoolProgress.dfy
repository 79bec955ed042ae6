/**
 What the pool can still do from any reachable state without new calls of `enqueue` and
 without spurious wake-ups: finish every accepted task, and let a graceful stop return
 exactly when it has no more missed workers than notifications to come.
 */
module PoolProgress {
  import opened ThreadPools

  // ---------- a measure that work decreases ----------

  function Sum<T(!new)>(f: T -> nat, s: seq<T>): nat {
    if s == [] then 0 else Sum(f, s[..|s| - 1]) + f(s[|s| - 1])
  }

  lemma {:induction false} SumUpdate<T(!new)>(f: T -> nat, s: seq<T>, i: nat, x: T)
    requires i < |s|
    ensures Sum(f, s[i := x]) + f(s[i]) == Sum(f, s) + f(x)
  {
    var front := s[..|s| - 1];
    if i == |s| - 1 {
      assert s[i := x][..|s| - 1] == front;
    } else {
      assert s[i := x][..|s| - 1] == front[i := x];
      SumUpdate(f, front, i, x);
    }
  }

  /** How far a worker is from sleeping or having left, where taking a task off the queue counts as 4. */
  function WorkerRank(w: Worker): nat {
    match w
    case AtLock => 4
    case Locked => 3
    case Blocking => 1
    case Asleep => 0
    case Ready => 2
    case Running(_) => 5
    case Leaving => 1
    case Exited => 0
  }

  /** How far a call is from having returned, including the task it may queue and the worker it may wake. */
  function CallRank(p: Producer): nat {
    match p
    case Calling => 12
    case Inside => 11
    case Admitting => 10
    case Notifying(_) => 5
    case Returned => 0
  }

  function WorkLeft(s: State): nat {
    4 * |s.queue| + Sum(WorkerRank, s.workers) + Sum(CallRank, s.producers)
  }

  // ---------- one step forward ----------

  /** Asleep, or bound to fall asleep. */
  predicate Sleeps(w: Worker) {
    w.Asleep? || w.Blocking?
  }

  /** Still to notify somebody. */
  predicate Pending(p: Producer) {
    !p.Returned?
  }

  /** Not the beginning of a new call, and not a spurious wake-up. */
  predicate Quiet(step: Step) {
    !step.Call? && !step.SpuriousWake?
  }

  predicate OfStop(step: Step) {
    step.StopFlag? || step.StopNotify? || step.StopWait? || step.StopJoin?
  }

  /** A quiet step of a worker or of a call already made. */
  predicate Internal(step: Step) {
    Quiet(step) && !OfStop(step)
  }

  /** The pool is stopped, and enough calls are under way to wake all who sleep. */
  ghost predicate AllWillWake(s: State) {
    !s.run && Count(Sleeps, s.workers) <= Count(Pending, s.producers)
  }

  /** What an internal step of this kind achieves. */
  ghost predicate Advances(s: State, step: Step)
    requires Inv(s)
  {
    && Enabled(s, step) && Internal(step)
    && WorkLeft(Apply(s, step)) < WorkLeft(s)
    && (AllWillWake(s) ==> AllWillWake(Apply(s, step)))
  }

  /** The next step of a worker that is neither asleep nor gone. */
  function NextOfWorker(s: State, i: nat): Step
    requires i < |s.workers| && !s.workers[i].Asleep? && !s.workers[i].Exited?
  {
    match s.workers[i]
    case AtLock => Acquire(i)
    case Locked => Test(i)
    case Blocking => Block(i)
    case Ready => Decide(i)
    case Running(_) => Finish(i, false)
    case Leaving => Leave(i)
  }

  lemma WorkerAdvances(s: State, i: nat)
    requires Inv(s) && i < |s.workers| && !s.workers[i].Asleep? && !s.workers[i].Exited?
    requires s.workers[i].AtLock? ==> s.mutex.Free?
    ensures Advances(s, NextOfWorker(s, i))
  {
    hide Sum, Count, Exclusion, WorkConserved, Fifo, Balance, NoneTwice;
    var t := Apply(s, NextOfWorker(s, i));
    SumUpdate(WorkerRank, s.workers, i, t.workers[i]);
    CountUpdate(Sleeps, s.workers, i, t.workers[i]);
    assert s.workers[i].Ready? ==> Drained(s) || s.queue != [];
  }

  lemma CallAdvances(s: State, j: nat) returns (step: Step)
    requires Inv(s) && j < |s.producers| && !s.producers[j].Returned?
    requires s.producers[j].Calling? || s.producers[j].Notifying? ==> s.mutex.Free?
    ensures Advances(s, step)
  {
    hide Sum, Count, WorkConserved, Fifo, Balance, NoneTwice, Places;
    if s.producers[j].Notifying? {
      step := NotifyAdvances(s, j);
      return;
    }
    step := match s.producers[j] case Calling => Enter(j) case Inside => ReadRun(j) case _ => Push(j);
    var t := Apply(s, step);
    SumUpdate(CallRank, s.producers, j, t.producers[j]);
    CountUpdate(Pending, s.producers, j, t.producers[j]);
  }

  lemma NotifyAdvances(s: State, j: nat) returns (step: Step)
    requires Inv(s) && j < |s.producers| && s.producers[j].Notifying? && s.mutex.Free?
    ensures Advances(s, step)
  {
    hide Sum, Count, WorkConserved, Fifo, Balance, NoneTwice, Places;
    var k := Sleeper(s);
    step := Notify(j, k);
    SumUpdate(CallRank, s.producers, j, Returned);
    CountUpdate(Pending, s.producers, j, Returned);
    if SomeAsleep(s.workers) {
      SumUpdate(WorkerRank, s.workers, k, AtLock);
      CountUpdate(Sleeps, s.workers, k, AtLock);
    } else {
      forall w | w in s.workers ensures !Sleeps(w) {
        var i :| 0 <= i < |s.workers| && s.workers[i] == w;
        assert !HoldsLock(s.workers[i]);
      }
      CountNone(Sleeps, s.workers);
    }
  }

  /** Nobody but the stopper can do anything quiet. */
  predicate Settled(s: State) {
    && s.mutex.Free?
    && (forall w :: w in s.workers ==> w.Asleep? || w.Exited?)
    && (forall p :: p in s.producers ==> p.Returned?)
  }

  /** Whoever holds the mutex goes first; then the workers; then the calls. */
  lemma SomeoneAdvances(s: State) returns (step: Step)
    requires Inv(s) && !Settled(s)
    ensures Advances(s, step)
  {
    hide Advances, WorkConserved, Fifo, Balance, NoneTwice, Places;
    if s.mutex.OfWorker? {
      WorkerAdvances(s, s.mutex.i);
      step := NextOfWorker(s, s.mutex.i);
    } else if s.mutex.OfProducer? {
      step := CallAdvances(s, s.mutex.j);
    } else if i: nat :| i < |s.workers| && !s.workers[i].Asleep? && !s.workers[i].Exited? {
      WorkerAdvances(s, i);
      step := NextOfWorker(s, i);
    } else {
      assert exists p :: p in s.producers && !p.Returned? by {
        assert forall w :: w in s.workers ==> w.Asleep? || w.Exited?;
      }
      var j: nat :| j < |s.producers| && !s.producers[j].Returned?;
      step := CallAdvances(s, j);
    }
  }

  // ---------- running to a standstill ----------

  ghost predicate AllInternal(steps: seq<Step>) {
    forall step :: step in steps ==> Internal(step)
  }

  ghost predicate AllQuiet(steps: seq<Step>) {
    forall step :: step in steps ==> Quiet(step)
  }

  /** Some run of workers and calls alone brings the pool to a standstill. */
  lemma {:induction false} PoolSettles(s: State) returns (steps: seq<Step>, t: State)
    requires Inv(s)
    ensures Reaches(s, steps, t) && AllInternal(steps) && Settled(t) && Inv(t)
    ensures AllWillWake(s) ==> AllWillWake(t)
    ensures t.stopper == s.stopper && |t.workers| == |s.workers| && s.accepted <= t.accepted
    decreases WorkLeft(s)
  {
    hide AllWillWake, Inv, WorkLeft, Settled;
    if Settled(s) {
      return [], s;
    }
    var step := SomeoneAdvances(s);
    StepKeepsRest(s, step);
    var u := Apply(s, step);
    InvKept(s, step);
    var more;
    more, t := PoolSettles(u);
    ReachesCons(s, step, more, t);
    steps := [step] + more;
  }

  lemma StepKeepsRest(s: State, step: Step)
    requires Inv(s) && Enabled(s, step) && Internal(step)
    ensures |s.futures| == |s.workers|
    ensures var u := Apply(s, step);
      u.stopper == s.stopper && |u.workers| == |s.workers| && s.accepted <= u.accepted
  {
  }

  /** At a standstill a pool with workers has no task left. */
  lemma SettledIsDone(s: State)
    requires Inv(s) && Settled(s) && |s.workers| >= 1
    ensures s.queue == [] && multiset(s.finished) == multiset(s.accepted)
  {
    assert s.workers[0] in s.workers;
    if !s.workers[0].Exited? {
      assert SomeAsleep(s.workers);
      CountNone(Checks, s.workers);
      CountNone(OwesNotify, s.producers);
    }
    forall task: nat ensures multiset(s.finished)[task] == multiset(s.accepted)[task] {
      OnePlace(s, task);
      RunsNone(task, s.workers);
      OnceIfDistinct(s.accepted, task);
    }
  }

  /**
   From every reachable state of a pool with workers, without new calls, spurious wake-ups or
   any help from `stop`, some run finishes every task accepted so far, exactly once.
   */
  lemma EveryTaskCanFinish(n: nat, s: State) returns (steps: seq<Step>, t: State)
    requires n >= 1 && Reachable(n, s)
    ensures Reaches(s, steps, t) && AllInternal(steps)
    ensures t.queue == [] && multiset(t.finished) == multiset(t.accepted) && s.accepted <= t.accepted
    ensures forall task: nat :: task in s.accepted ==> multiset(t.finished)[task] == 1
  {
    ReachableInv(n, s);
    steps, t := PoolSettles(s);
    SettledIsDone(t);
    forall task: nat | task in s.accepted ensures multiset(t.finished)[task] == 1 {
      var i :| 0 <= i < |s.accepted| && s.accepted[i] == task;
      assert t.accepted[i] == task;
      OnceIfDistinct(t.accepted, task);
    }
  }

  /** While a task waits, some worker or call can make a step. */
  lemma QueuedWorkIsNeverStuck(n: nat, s: State) returns (step: Step)
    requires n >= 1 && Reachable(n, s) && s.queue != []
    ensures Enabled(s, step) && Internal(step)
  {
    ReachableInv(n, s);
    if Settled(s) {
      SettledIsDone(s);
    }
    step := SomeoneAdvances(s);
  }

  // ---------- when a graceful stop can return ----------

  /** Some run without new calls and spurious wake-ups ends the stop. */
  ghost predicate StopCanReturn(s: State) {
    exists steps, t :: Reaches(s, steps, t) && AllQuiet(steps) && t.stopper.Stopped?
  }

  /** Once every worker has left, the stop waits for the futures and joins. */
  lemma {:induction false} StopFinishes(s: State) returns (steps: seq<Step>, t: State)
    requires Inv(s) && s.stopper.Waiting? && forall w :: w in s.workers ==> w.Exited?
    ensures Reaches(s, steps, t) && AllQuiet(steps) && t.stopper.Stopped?
    decreases |s.futures| - s.stopper.i
  {
    hide Exclusion, WorkConserved, Fifo, Balance, NoneTwice;
    var i := s.stopper.i;
    if i == |s.futures| {
      t := Apply(s, StopJoin);
      assert Reaches(t, [], t);
      ReachesCons(s, StopJoin, [], t);
      return [StopJoin] + [], t;
    }
    assert s.workers[i] in s.workers;
    assert s.futures[i];
    InvKept(s, StopWait);
    var more;
    more, t := StopFinishes(Apply(s, StopWait));
    ReachesCons(s, StopWait, more, t);
    steps := [StopWait] + more;
  }

  /** With a call under way for everyone who sleeps, the pool empties and the stop returns. */
  lemma StopReturns(s: State) returns (steps: seq<Step>, t: State)
    requires Inv(s) && s.stopper.Waiting? && Count(Sleeps, s.workers) <= Count(Pending, s.producers)
    ensures Reaches(s, steps, t) && AllQuiet(steps) && t.stopper.Stopped?
  {
    var settling, u := PoolSettles(s);
    CountNone(Pending, u.producers);
    forall w | w in u.workers ensures w.Exited? {
      if w.Asleep? {
        var i :| 0 <= i < |u.workers| && u.workers[i] == w;
        CountSome(Sleeps, u.workers, i);
      }
    }
    var joining;
    joining, t := StopFinishes(u);
    ReachesConcat(s, settling, u, joining, t);
    steps := settling + joining;
  }

  lemma {:induction false} CountSome<T(!new)>(p: T -> bool, s: seq<T>, i: nat)
    requires i < |s| && p(s[i])
    ensures Count(p, s) > 0
  {
    if i < |s| - 1 {
      CountSome(p, s[..|s| - 1], i);
    }
  }

  lemma {:induction false} ReachesConcat(s: State, a: seq<Step>, u: State, b: seq<Step>, t: State)
    requires Reaches(s, a, u) && Reaches(u, b, t)
    ensures Reaches(s, a + b, t)
    decreases |a|
  {
    if a == [] {
      assert a + b == b;
    } else {
      assert (a + b)[1..] == a[1..] + b;
      ReachesConcat(Apply(s, a[0]), a[1..], u, b, t);
    }
  }

  /** More workers sleep, or are bound to, than there are calls to wake them. */
  ghost predicate Missed(s: State) {
    s.stopper.Waiting? && Count(Sleeps, s.workers) > Count(Pending, s.producers)
  }

  lemma MissedStays(s: State, step: Step)
    requires Inv(s) && Missed(s) && Enabled(s, step) && Quiet(step)
    ensures Missed(Apply(s, step))
  {
    hide WorkConserved, Fifo, Balance, NoneTwice, Exclusion, Places, Admission, Count;
    var t := Apply(s, step);
    if step.StopJoin? {
      CountNone(Sleeps, s.workers);
    } else if Waits(step) || Works(step) {
      CountUpdate(Sleeps, s.workers, step.i, t.workers[step.i]);
    } else if !OfStop(step) {
      CountUpdate(Pending, s.producers, step.j, t.producers[step.j]);
      if step.Notify? && SomeAsleep(s.workers) {
        CountUpdate(Sleeps, s.workers, step.i, AtLock);
      }
    }
  }

  lemma MissedNeverOver(s: State)
    requires Inv(s) && Missed(s)
    ensures !WaitsOver(s)
  {
    if s.stopper.i == |s.futures| {
      forall w | w in s.workers ensures !Sleeps(w) {
        var i :| 0 <= i < |s.workers| && s.workers[i] == w;
        assert s.futures[i];
      }
      CountNone(Sleeps, s.workers);
    }
  }

  /** A stop that has missed workers stays so, and its waits are never over. */
  lemma {:induction false} HungStopNeverReturns(s: State, steps: seq<Step>, t: State)
    requires Inv(s) && Missed(s) && Reaches(s, steps, t) && AllQuiet(steps)
    ensures Inv(t) && Missed(t) && !WaitsOver(t)
    decreases |steps|
  {
    if steps == [] {
      MissedNeverOver(s);
    } else {
      assert steps[0] in steps;
      InvKept(s, steps[0]);
      MissedStays(s, steps[0]);
      HungStopNeverReturns(Apply(s, steps[0]), steps[1..], t);
    }
  }

  /**
   A graceful stop that has sent its notification can return, without new calls and spurious
   wake-ups, exactly when no more workers sleep, or are bound to, than calls are under way.
   */
  lemma StopCanReturnExactlyWhen(n: nat, s: State)
    requires Reachable(n, s) && s.stopper.Waiting?
    ensures StopCanReturn(s) <==> Count(Sleeps, s.workers) <= Count(Pending, s.producers)
  {
    ReachableInv(n, s);
    if Missed(s) {
      forall steps, t | Reaches(s, steps, t) && AllQuiet(steps) ensures !t.stopper.Stopped? {
        HungStopNeverReturns(s, steps, t);
      }
    } else {
      var steps, t := StopReturns(s);
    }
  }

  /**
   At the moment of the notification that is: no worker stands between its test and its sleep,
   or some call is under way.
   */
  lemma NotifiedStopCanReturnExactlyWhen(n: nat, s: State)
    requires Reachable(n, s) && s.stopper.Flagged?
    ensures |s.futures| == |s.workers|
    ensures StopCanReturn(Apply(s, StopNotify)) <==>
      Blocking !in s.workers || exists p :: p in s.producers && Pending(p)
  {
    hide WorkConserved, Fifo, Balance, NoneTwice, Places, Admission, StopCanReturn, Reachable, Count;
    ReachableInv(n, s);
    var u := Apply(s, StopNotify);
    ReachableNext(s, StopNotify, u, n);
    StopCanReturnExactlyWhen(n, u);
    if Blocking in s.workers {
      var i :| 0 <= i < |s.workers| && s.workers[i] == Blocking;
      forall k | 0 <= k < |u.workers| && k != i ensures !Sleeps(u.workers[k]) {
        assert HoldsLock(s.workers[i]);
      }
      CountOne(Sleeps, u.workers, i);
    } else {
      CountNone(Sleeps, u.workers);
    }
    if p :| p in s.producers && Pending(p) {
      var j :| 0 <= j < |s.producers| && s.producers[j] == p;
      CountSome(Pending, s.producers, j);
    } else {
      CountNone(Pending, s.producers);
    }
  }

  /**
   From every reachable state in which `stop` has not been called it can be, and some run
   without new calls and spurious wake-ups then ends it, with every accepted task finished.
   */
  lemma GracefulStopCanComplete(n: nat, s: State) returns (steps: seq<Step>, t: State)
    requires Reachable(n, s) && s.stopper.Idle?
    ensures Reaches(s, steps, t) && AllQuiet(steps) && t.stopper.Stopped?
    ensures n >= 1 ==> t.queue == [] && multiset(t.finished) == multiset(t.accepted)
  {
    ReachableInv(n, s);
    var settling, u := PoolSettles(s);
    var v, w := StopBegins(u);
    var ending;
    ending, t := StopReturns(w);
    ReachesCons(v, StopNotify, ending, t);
    ReachesCons(u, StopFlag, [StopNotify] + ending, t);
    ReachesConcat(s, settling, u, [StopFlag] + ([StopNotify] + ending), t);
    steps := settling + ([StopFlag] + ([StopNotify] + ending));
    InvOverRun(s, steps, t);
    if n >= 1 {
      DrainedWhenStopped(t);
    }
  }

  /** From a standstill, the flag and the notification leave nobody asleep. */
  lemma StopBegins(u: State) returns (v: State, w: State)
    requires Inv(u) && Settled(u) && u.stopper.Idle?
    ensures |u.futures| == |u.workers| && Enabled(u, StopFlag) && v == Apply(u, StopFlag)
    ensures |v.futures| == |v.workers| && Enabled(v, StopNotify) && w == Apply(v, StopNotify)
    ensures Inv(w) && w.stopper.Waiting? && Count(Sleeps, w.workers) == 0
  {
    hide WorkConserved, Fifo, Balance, NoneTwice, Exclusion, Places, Admission, Count;
    InvKept(u, StopFlag);
    v := Apply(u, StopFlag);
    InvKept(v, StopNotify);
    w := Apply(v, StopNotify);
    forall x | x in w.workers ensures !Sleeps(x) {
      var i :| 0 <= i < |w.workers| && w.workers[i] == x;
      assert u.workers[i] in u.workers;
    }
    CountNone(Sleeps, w.workers);
  }

  lemma {:induction false} CountOne<T(!new)>(p: T -> bool, s: seq<T>, i: nat)
    requires i < |s| && p(s[i]) && forall k :: 0 <= k < |s| && k != i ==> !p(s[k])
    ensures Count(p, s) == 1
  {
    var front := s[..|s| - 1];
    if i == |s| - 1 {
      CountNone(p, front);
    } else {
      CountOne(p, front, i);
    }
  }
}
