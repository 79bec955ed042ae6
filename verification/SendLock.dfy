/**
 Concurrent senders on one socket. Each runs the partial-send loop while it holds the send
 mutex; the wire is what the system calls of all of them put on it, in order.
 */
module SendLock {
  import opened Bits
  import opened Framing
  import opened Attempts

  /** The caller inside the mutex, if any, and its loop counter. */
  datatype Holder = Free | Held(data: seq<byte>, total: nat)

  datatype State = State(wire: seq<byte>, holder: Holder, done: seq<Attempt>)

  datatype Step = Lock(data: seq<byte>) | Send(k: nat) | Fail | Unlock

  ghost predicate Enabled(s: State, step: Step) {
    match step
    case Lock(_) => s.holder.Free?
    case Send(k) => s.holder.Held? && 1 <= k && s.holder.total + k <= |s.holder.data|
    case Fail => s.holder.Held? && s.holder.total < |s.holder.data|
    case Unlock => s.holder.Held? && s.holder.total == |s.holder.data|
  }

  function Apply(s: State, step: Step): State {
    match (step, s.holder)
    case (Lock(data), Free) => s.(holder := Held(data, 0))
    case (Send(k), Held(data, total)) =>
      if total + k <= |data| then State(s.wire + data[total..total + k], Held(data, total + k), s.done) else s
    case (Fail, Held(data, total)) => State(s.wire, Free, s.done + [Attempt(data, total, false)])
    case (Unlock, Held(data, total)) => State(s.wire, Free, s.done + [Attempt(data, total, true)])
    case _ => s
  }

  ghost predicate Reaches(s: State, steps: seq<Step>, t: State)
    decreases |steps|
  {
    if steps == [] then s == t else Enabled(s, steps[0]) && Reaches(Apply(s, steps[0]), steps[1..], t)
  }

  const IDLE := State([], Free, [])

  ghost predicate Inv(s: State) {
    && (forall a :: a in s.done ==> WellSent(a))
    && match s.holder
       case Free => s.wire == WireOf(s.done)
       case Held(data, total) => total <= |data| && s.wire == WireOf(s.done) + data[..total]
  }

  lemma InvKept(s: State, step: Step)
    requires Inv(s) && Enabled(s, step)
    ensures Inv(Apply(s, step))
  {
    match step
    case Lock(data) =>
      assert data[..0] == [] && s.wire + [] == s.wire;
    case Send(k) =>
      var Held(data, total) := s.holder;
      assert data[..total] + data[total..total + k] == data[..total + k];
      Associative(WireOf(s.done), data[..total], data[total..total + k]);
    case Fail =>
      WireOfAppend(s.done, Attempt(s.holder.data, s.holder.total, false));
    case Unlock =>
      WireOfAppend(s.done, Attempt(s.holder.data, s.holder.total, true));
  }

  /**
   In every reachable state the wire is the whole data of each successful call and a proper
   prefix of each failed one, in locking order, then the running caller's bytes so far: no
   two callers' bytes are interleaved.
   */
  lemma {:induction false} NeverInterleaved(s: State, steps: seq<Step>, t: State)
    requires Inv(s) && Reaches(s, steps, t)
    ensures Inv(t)
    decreases |steps|
  {
    if steps != [] {
      InvKept(s, steps[0]);
      NeverInterleaved(Apply(s, steps[0]), steps[1..], t);
    }
  }

  // ---------- what the receiver makes of it ----------

  /** The messages of the calls that reported success. */
  function Succeeded(done: seq<Attempt>): seq<seq<byte>> {
    if done == [] then []
    else (if done[0].ok && done[0].data != [] then [done[0].data[..|done[0].data| - 1]] else []) + Succeeded(done[1..])
  }

  /** Every call sends a terminated, framable message. */
  ghost predicate AllTerminated(done: seq<Attempt>) {
    forall a :: a in done ==>
      |a.data| > 1 && a.data[|a.data| - 1] == NUL && NUL !in a.data[..|a.data| - 1] && WellSent(a)
  }

  ghost predicate AllFailed(done: seq<Attempt>) {
    forall a :: a in done ==> !a.ok
  }

  /** No call that failed after putting bytes on the wire is followed by a successful one. */
  ghost predicate NoTornSend(done: seq<Attempt>) {
    done == [] || (NoTornSend(done[1..]) && (!done[0].ok && done[0].sent > 0 ==> AllFailed(done[1..])))
  }

  /**
   The receiver gets exactly the messages whose sends succeeded, unless a send that failed
   after some bytes is followed by one that succeeds: then two messages run together.
   */
  lemma SuccessesArriveExactlyWhen(steps: seq<Step>, t: State)
    requires Reaches(IDLE, steps, t) && t.holder.Free? && AllTerminated(t.done)
    ensures NonEmptyFrames(t.wire) == Succeeded(t.done) <==> NoTornSend(t.done)
  {
    NeverInterleaved(IDLE, steps, t);
    assert [] + WireOf(t.done) == WireOf(t.done);
    FramesBehindPartial([], t.done);
  }

  const TORN := Attempt([1, 2, NUL], 1, false)
  const WHOLE := Attempt([3, NUL], 2, true)

  /** One byte of a first message goes out, its send fails, and a second message is sent whole. */
  lemma TornSendHappens() returns (steps: seq<Step>, t: State)
    ensures Reaches(IDLE, steps, t) && t.holder.Free? && AllTerminated(t.done) && !NoTornSend(t.done)
    ensures NonEmptyFrames(t.wire) != Succeeded(t.done)
  {
    t := State([1, 3, NUL], Free, [TORN, WHOLE]);
    var s3 := State([1], Free, [TORN]);
    var second := SecondSend(s3, t);
    steps := FirstSend(s3, second, t);
    assert t.done[1..][0] == WHOLE;
    SuccessesArriveExactlyWhen(steps, t);
  }

  lemma FirstSend(s3: State, rest: seq<Step>, t: State) returns (steps: seq<Step>)
    requires s3 == State([1], Free, [TORN]) && Reaches(s3, rest, t)
    ensures Reaches(IDLE, steps, t)
  {
    var s1 := State([], Held(TORN.data, 0), []);
    var s2 := State([1], Held(TORN.data, 1), []);
    assert s2 == Apply(s1, Send(1)) && s3 == Apply(s2, Fail);
    ReachesCons(s2, Fail, rest, t);
    ReachesCons(s1, Send(1), [Fail] + rest, t);
    ReachesCons(IDLE, Lock(TORN.data), [Send(1)] + ([Fail] + rest), t);
    steps := [Lock(TORN.data)] + ([Send(1)] + ([Fail] + rest));
  }

  lemma SecondSend(s3: State, t: State) returns (steps: seq<Step>)
    requires s3 == State([1], Free, [TORN]) && t == State([1, 3, NUL], Free, [TORN, WHOLE])
    ensures Reaches(s3, steps, t)
  {
    var s4 := State([1], Held(WHOLE.data, 0), [TORN]);
    var s5 := State([1, 3, NUL], Held(WHOLE.data, 2), [TORN]);
    assert s5 == Apply(s4, Send(2)) && t == Apply(s5, Unlock);
    assert Reaches(t, [], t);
    ReachesCons(s5, Unlock, [], t);
    ReachesCons(s4, Send(2), [Unlock], t);
    ReachesCons(s3, Lock(WHOLE.data), [Send(2)] + [Unlock], t);
    steps := [Lock(WHOLE.data)] + ([Send(2)] + [Unlock]);
  }

  lemma ReachesCons(s: State, step: Step, steps: seq<Step>, t: State)
    requires Enabled(s, step) && Reaches(Apply(s, step), steps, t)
    ensures Reaches(s, [step] + steps, t)
  {
    assert ([step] + steps)[1..] == steps;
  }

  /** `NoTornSend` when unterminated bytes are already on the wire. */
  ghost predicate Clean(partial: seq<byte>, done: seq<Attempt>) {
    NoTornSend(done) && (partial != [] ==> AllFailed(done))
  }

  lemma {:induction false} FramesBehindPartial(partial: seq<byte>, done: seq<Attempt>)
    requires AllTerminated(done) && NUL !in partial
    ensures NonEmptyFrames(partial + WireOf(done)) == Succeeded(done) <==> Clean(partial, done)
    decreases |done|
  {
    if done == [] {
      assert partial + [] == partial;
      NoFrame(partial);
    } else {
      var a, rest := done[0], done[1..];
      assert done == [a] + rest && a in done;
      assert AllTerminated(rest) by { assert forall x :: x in rest ==> x in done; }
      CleanBehind(partial, a, rest);
      if a.ok {
        SuccessBehindPartial(partial, a, rest);
        FramesBehindPartial([], rest);
        assert [] + WireOf(rest) == WireOf(rest);
        var m := a.data[..|a.data| - 1];
        SameHeadAndTail(partial + m, NonEmptyFrames(WireOf(rest)), m, Succeeded(rest));
      } else {
        FailureBehindPartial(partial, a, rest);
        FramesBehindPartial(partial + a.data[..a.sent], rest);
      }
    }
  }

  lemma CleanBehind(partial: seq<byte>, a: Attempt, rest: seq<Attempt>)
    requires WellSent(a)
    ensures Clean(partial, [a] + rest) <==>
      if a.ok then partial == [] && Clean([], rest) else Clean(partial + a.data[..a.sent], rest)
  {
    var done := [a] + rest;
    assert done[0] == a && done[1..] == rest;
    assert forall x :: x in done <==> x == a || x in rest;
    assert |partial + a.data[..a.sent]| == |partial| + a.sent;
  }

  lemma SameHeadAndTail<T>(x: T, xs: seq<T>, y: T, ys: seq<T>)
    ensures [x] + xs == [y] + ys <==> x == y && xs == ys
  {
    if [x] + xs == [y] + ys {
      assert ([x] + xs)[0] == x && ([x] + xs)[1..] == xs;
      assert ([y] + ys)[0] == y && ([y] + ys)[1..] == ys;
    }
  }

  lemma FailureBehindPartial(partial: seq<byte>, a: Attempt, rest: seq<Attempt>)
    requires !a.ok && a.sent < |a.data| && NUL !in a.data[..|a.data| - 1] && NUL !in partial
    ensures partial + WireOf([a] + rest) == partial + a.data[..a.sent] + WireOf(rest)
    ensures Succeeded([a] + rest) == Succeeded(rest)
    ensures NUL !in partial + a.data[..a.sent]
  {
    assert ([a] + rest)[0] == a && ([a] + rest)[1..] == rest;
    assert a.data[..a.sent] == a.data[..|a.data| - 1][..a.sent];
    Associative(partial, a.data[..a.sent], WireOf(rest));
  }

  lemma SuccessBehindPartial(partial: seq<byte>, a: Attempt, rest: seq<Attempt>)
    requires |a.data| > 1 && a.data[|a.data| - 1] == NUL && NUL !in a.data[..|a.data| - 1] && WellSent(a)
    requires NUL !in partial && a.ok
    ensures var m := a.data[..|a.data| - 1];
      && NonEmptyFrames(partial + WireOf([a] + rest)) == [partial + m] + NonEmptyFrames(WireOf(rest))
      && Succeeded([a] + rest) == [m] + Succeeded(rest)
      && (partial + m == m <==> partial == [])
  {
    assert ([a] + rest)[0] == a && ([a] + rest)[1..] == rest;
    var m := a.data[..|a.data| - 1];
    assert a.data[..Cut(a)] == m + [NUL];
    assert partial + WireOf([a] + rest) == (partial + m) + [NUL] + WireOf(rest);
    FrameHead(partial + m, WireOf(rest));
    assert |partial + m| == |partial| + |m|;
  }
}
