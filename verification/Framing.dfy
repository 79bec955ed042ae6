/**
 NUL-terminated framing over a byte stream that may be cut anywhere.

 A sender concatenates terminated messages; the receiver moves bytes into a bounded ring in
 arbitrary pieces and, whenever it likes, asks the ring for a frame.
 */
module Framing {
  import opened Bits
  import opened Delimiters

  /** One delimited read: the first frame and the rest, or nothing and everything. */
  function TakeFrame(s: seq<byte>, d: byte): (seq<byte>, seq<byte>) {
    var i := IndexOf(s, d);
    if i < |s| then (s[..i], s[i + 1..]) else ([], s)
  }

  /** The first frame, its delimiter and the rest make up the contents; without a delimiter nothing is taken. */
  ghost predicate FirstFrame(s: seq<byte>, d: byte, f: seq<byte>, rest: seq<byte>) {
    if d in s then s == f + [d] + rest && d !in f else f == [] && rest == s
  }

  lemma TakeFrameSplits(s: seq<byte>, d: byte)
    ensures FirstFrame(s, d, TakeFrame(s, d).0, TakeFrame(s, d).1)
  {
    var i := IndexOf(s, d);
    if i < |s| {
      assert s == s[..i] + [s[i]] + s[i + 1..];
    } else {
      assert s[..i] == s;
    }
  }

  /**
   One read delimited by a string, as performed: a success removes a single byte of the
   delimiter, a failure puts the bytes taken behind those that were not.
   */
  function TakeString(s: seq<byte>, delim: seq<byte>): (seq<byte>, seq<byte>) {
    var n := StringTaken(s, 0, delim);
    if n == 0 then ([], s)
    else if n < |delim| || s[n - |delim|..n] != delim then ([], s[n..] + s[..n])
    else (s[..n - 1], s[n..])
  }

  lemma OneByteStringIsFrame(s: seq<byte>, d: byte)
    ensures TakeString(s, [d]) == TakeFrame(s, d)
  {
    OneByteOverloadsAgree(s, 0, d);
    if s != [] {
      IndexOfEnds(s, d);
      var n := ThroughFirst(s, d);
      assert s[n - 1..n] == [s[n - 1]];
      assert s[n..] + s[..n] == s || s[n - 1] == d;
    }
  }

  predicate StringSearchFails(s: seq<byte>, delim: seq<byte>) {
    var n := StringTaken(s, 0, delim);
    n > 0 && (n < |delim| || s[n - |delim|..n] != delim)
  }

  /** In a ring of this capacity, a failed search for the delimiter string changes nothing. */
  ghost predicate FailureIsIdentity(capacity: nat, delim: seq<byte>) {
    forall s :: |s| <= capacity && StringSearchFails(s, delim) ==> TakeString(s, delim) == ([], s)
  }

  /** A delimiter string whose failed searches are harmless: the search takes all or is right to stop. */
  predicate RestoresOnFailure(capacity: nat, delim: seq<byte>) {
    |delim| <= 1 || |delim| > capacity || NeverFindable(delim)
  }

  lemma FailureRestores(capacity: nat, s: seq<byte>, delim: seq<byte>)
    requires |s| <= capacity && RestoresOnFailure(capacity, delim) && StringSearchFails(s, delim)
    ensures TakeString(s, delim) == ([], s)
  {
    hide StringTaken, StringTest, IndexOf;
    var n := StringTaken(s, 0, delim);
    assert s[|s|..] + s[..|s|] == s;
    assert delim != [] by { assert s[n..n] == []; }
    if |delim| == 1 {
      assert delim == [delim[0]];
      assert s[n - 1..n] == [s[n - 1]];
      OneByteOverloadsAgree(s, 0, delim[0]);
      IndexOfEnds(s, delim[0]);
    } else if |delim| > capacity {
      TooShort(s, 0, delim);
    } else {
      NeverFound(s, 0, delim);
    }
    assert n == |s|;
  }

  lemma FailureReorders(capacity: nat, delim: seq<byte>) returns (s: seq<byte>)
    requires !RestoresOnFailure(capacity, delim)
    ensures |s| <= capacity && StringSearchFails(s, delim) && TakeString(s, delim) != ([], s)
  {
    var other: byte := if delim[0] == 1 then 2 else 1;
    s := [delim[0]] + seq(|delim| - 1, _ => other);
    assert StringTest(s[0], 0, |s|, delim);
    assert StringTaken(s, 0, delim) == 1;
    assert (s[1..] + s[..1])[0] == other;
  }

  /**
   A failed search for a delimiter string leaves every ring as it was exactly for delimiters of
   at most one byte, those longer than the ring, and those with a nonzero byte behind the
   first; for any other ("\1\0" on the contents 1, 2, say) it reorders the contents.
   */
  lemma FailedStringSearchIsIdentityExactlyWhen(capacity: nat, delim: seq<byte>)
    ensures FailureIsIdentity(capacity, delim) <==> RestoresOnFailure(capacity, delim)
  {
    if RestoresOnFailure(capacity, delim) {
      forall s | |s| <= capacity && StringSearchFails(s, delim) ensures TakeString(s, delim) == ([], s) {
        FailureRestores(capacity, s, delim);
      }
    } else {
      var s := FailureReorders(capacity, delim);
    }
  }

  predicate EndsWith(s: seq<byte>, delim: seq<byte>) {
    |delim| <= |s| && s[|s| - |delim|..] == delim
  }

  /**
   A read delimited by two bytes or more returns something exactly when the delimiter is one
   the search never finds and the contents happen to end with it: then all of them but the
   last byte. Otherwise it returns nothing; a findable delimiter makes it rotate the contents.
   */
  lemma LongDelimiterRead(s: seq<byte>, delim: seq<byte>)
    requires |delim| >= 2
    ensures NeverFindable(delim) ==> TakeString(s, delim) == if EndsWith(s, delim) then (s[..|s| - 1], []) else ([], s)
    ensures !NeverFindable(delim) ==>
      var k := IndexOf(s, delim[0]);
      TakeString(s, delim) == ([], if k + |delim| <= |s| then s[k + 1..] + s[..k + 1] else s)
  {
    assert s[|s|..] + s[..|s|] == s;
    if NeverFindable(delim) {
      NeverFound(s, 0, delim);
      assert s[..|s|] == s;
    } else {
      var k := IndexOf(s, delim[0]);
      ZeroTailTaken(s, 0, delim);
      var n := if k + |delim| <= |s| then k + 1 else |s|;
      if |delim| <= n {
        FindableNeverEnds(s, n, delim);
      }
    }
  }

  /** Behind the first possible start of a findable delimiter, or with none, no whole delimiter can end. */
  lemma FindableNeverEnds(s: seq<byte>, n: nat, delim: seq<byte>)
    requires 2 <= |delim| <= n <= |s| && !NeverFindable(delim)
    requires n <= IndexOf(s, delim[0]) + 1 || IndexOf(s, delim[0]) + |delim| > |s|
    ensures s[n - |delim|..n] != delim
  {
    var k, i := n - |delim|, IndexOf(s, delim[0]);
    assert s[..i][k] == s[k] == s[k..n][0];
  }

  /** A read with an empty delimiter loses a byte. */
  lemma EmptyDelimiterRead(s: seq<byte>)
    ensures TakeString(s, []) == ([], if s == [] then [] else s[1..])
  {
    EmptyTakesOne(s);
    if s != [] {
      assert s[1..1] == [] && s[..0] == [];
    }
  }

  /** The frames of a stream, in order, without the empty ones. */
  function NonEmptyFrames(s: seq<byte>): seq<seq<byte>>
    decreases |s|
  {
    var i := IndexOf(s, NUL);
    if i == |s| then [] else Present(s[..i]) + NonEmptyFrames(s[i + 1..])
  }

  function Present(f: seq<byte>): seq<seq<byte>> {
    if f == [] then [] else [f]
  }

  /** Nothing is left over after the last frame. */
  predicate Closed(s: seq<byte>) {
    s == [] || s[|s| - 1] == 0
  }

  /** A stream may be cut behind any frame. */
  lemma {:induction false} FramesOfConcat(a: seq<byte>, b: seq<byte>)
    requires Closed(a)
    ensures NonEmptyFrames(a + b) == NonEmptyFrames(a) + NonEmptyFrames(b)
    decreases |a|
  {
    if a == [] {
      assert a + b == b;
    } else {
      var (f, rest) := TakeFrame(a, NUL);
      ClosedHasFrame(a);
      FramesAfterTake(a, b);
      FramesOfConcat(rest, b);
      Associative(Present(f), NonEmptyFrames(rest), NonEmptyFrames(b));
    }
  }

  lemma Associative<T>(a: seq<T>, b: seq<T>, c: seq<T>)
    ensures a + (b + c) == (a + b) + c
  {
  }

  lemma ClosedHasFrame(a: seq<byte>)
    requires Closed(a) && a != []
    ensures NUL in a
    ensures var (f, rest) := TakeFrame(a, NUL);
      Closed(rest) && |rest| < |a| && NonEmptyFrames(a) == Present(f) + NonEmptyFrames(rest)
  {
    assert a[|a| - 1] == NUL;
    FramesAfterTake(a, []);
    var (f, rest) := TakeFrame(a, NUL);
    assert a + [] == a && rest + [] == rest;
    assert rest == [] || rest[|rest| - 1] == a[|a| - 1];
  }

  /** The first delimiter is found without looking past it. */
  lemma IndexOfPrefix(a: seq<byte>, b: seq<byte>)
    requires NUL in a
    ensures IndexOf(a + b, NUL) == IndexOf(a, NUL) < |a|
  {
    var i := IndexOf(a, NUL);
    assert a[..|a|] == a;
    assert (a + b)[..i] == a[..i];
    IndexOfUnique(a + b, NUL, i);
  }

  /** Taking a frame off the front takes it off the list of frames. */
  lemma FramesAfterTake(s: seq<byte>, rest: seq<byte>)
    requires NUL in s
    ensures var (f, s') := TakeFrame(s, NUL);
      && s == f + [NUL] + s' && |s'| < |s|
      && NonEmptyFrames(s + rest) == Present(f) + NonEmptyFrames(s' + rest)
  {
    var i := IndexOf(s, NUL);
    IndexOfPrefix(s, rest);
    assert (s + rest)[..i] == s[..i];
    assert (s + rest)[i + 1..] == s[i + 1..] + rest;
  }

  /** A terminated NUL-free prefix is the first frame. */
  lemma FrameHead(m: seq<byte>, tail: seq<byte>)
    requires NUL !in m
    ensures NonEmptyFrames(m + [NUL] + tail) == Present(m) + NonEmptyFrames(tail)
  {
    var s := m + [NUL] + tail;
    assert s[..|m|] == m && s[|m| + 1..] == tail;
    IndexOfUnique(s, NUL, |m|);
  }

  lemma OneFrame(m: seq<byte>)
    requires NUL !in m
    ensures NonEmptyFrames(m + [NUL]) == Present(m)
  {
    FrameHead(m, []);
    NoFrame([]);
    assert m + [NUL] + [] == m + [NUL] && Present(m) + [] == Present(m);
  }

  lemma NoFrame(s: seq<byte>)
    requires NUL !in s
    ensures TakeFrame(s, NUL) == ([], s) && NonEmptyFrames(s) == []
  {
    assert s[..|s|] == s;
    IndexOfUnique(s, NUL, |s|);
  }

  // ---------- messages ----------

  /** What `try_send` puts on the wire for a list of messages. */
  function Encode(msgs: seq<seq<byte>>): seq<byte> {
    if msgs == [] then [] else msgs[0] + [NUL] + Encode(msgs[1..])
  }

  ghost predicate Framable(msgs: seq<seq<byte>>) {
    forall m :: m in msgs ==> m != [] && NUL !in m
  }

  lemma {:induction false} FramesAreFramable(s: seq<byte>)
    ensures Framable(NonEmptyFrames(s))
    decreases |s|
  {
    var i := IndexOf(s, NUL);
    if i < |s| {
      FramesAreFramable(s[i + 1..]);
    }
  }

  /** Framing loses nothing exactly on lists of non-empty, NUL-free messages. */
  lemma {:induction false} FramingRoundTripsExactlyWhen(msgs: seq<seq<byte>>)
    ensures NonEmptyFrames(Encode(msgs)) == msgs <==> Framable(msgs)
  {
    if NonEmptyFrames(Encode(msgs)) == msgs {
      FramesAreFramable(Encode(msgs));
    }
    if Framable(msgs) && msgs != [] {
      assert forall x :: x in msgs[1..] ==> x in msgs;
      FrameHead(msgs[0], Encode(msgs[1..]));
      FramingRoundTripsExactlyWhen(msgs[1..]);
    }
  }

  // ---------- runs of a receiver ----------

  /** Bytes on the wire, bytes in the ring, and the non-empty results handed out so far. */
  datatype Link = Link(wire: seq<byte>, ring: seq<byte>, out: seq<seq<byte>>)

  /** A receive that delivers (up to) `k` bytes, or a call of `read_buffer`. */
  datatype Event = Receive(k: nat) | Drain

  function Min3(a: nat, b: nat, c: nat): nat {
    if a <= b && a <= c then a else if b <= c then b else c
  }

  function Step(capacity: nat, link: Link, e: Event): (next: Link)
    requires |link.ring| <= capacity
    ensures |next.ring| <= capacity
  {
    match e
    case Receive(k) =>
      var n := Min3(k, |link.wire|, capacity - |link.ring|);
      Link(link.wire[n..], link.ring + link.wire[..n], link.out)
    case Drain =>
      var (f, rest) := TakeFrame(link.ring, NUL);
      Link(link.wire, rest, link.out + Present(f))
  }

  function Run(capacity: nat, link: Link, events: seq<Event>): (last: Link)
    requires |link.ring| <= capacity
    ensures |last.ring| <= capacity
    decreases |events|
  {
    if events == [] then link else Run(capacity, Step(capacity, link, events[0]), events[1..])
  }

  lemma DrainConserves(capacity: nat, link: Link)
    requires |link.ring| <= capacity && NUL in link.ring
    ensures var next := Step(capacity, link, Drain);
      && link.out + NonEmptyFrames(link.ring + link.wire) == next.out + NonEmptyFrames(next.ring + next.wire)
      && IsSuffix(next.ring + next.wire, link.ring + link.wire)
      && |next.ring| < |link.ring| && next.wire == link.wire
  {
    hide NonEmptyFrames;
    FramesAfterTake(link.ring, link.wire);
    var (f, rest) := TakeFrame(link.ring, NUL);
    Associative(link.out, Present(f), NonEmptyFrames(rest + link.wire));
    assert (link.ring + link.wire)[|f| + 1..] == rest + link.wire;
  }

  lemma ReceiveConserves(capacity: nat, link: Link, k: nat)
    requires |link.ring| <= capacity
    ensures var next := Step(capacity, link, Receive(k));
      next.ring + next.wire == link.ring + link.wire && next.out == link.out
  {
  }

  /** A step neither loses, invents, nor reorders frames or bytes. */
  lemma StepConserves(capacity: nat, link: Link, e: Event)
    requires |link.ring| <= capacity
    ensures var next := Step(capacity, link, e);
      && link.out + NonEmptyFrames(link.ring + link.wire) == next.out + NonEmptyFrames(next.ring + next.wire)
      && IsSuffix(next.ring + next.wire, link.ring + link.wire)
  {
    if e.Drain? && NUL in link.ring {
      DrainConserves(capacity, link);
    } else {
      if e.Drain? {
        NoFrame(link.ring);
        assert Step(capacity, link, e) == link;
      } else {
        ReceiveConserves(capacity, link, e.k);
      }
      var bytes := link.ring + link.wire;
      assert bytes[0..] == bytes;
    }
  }

  predicate IsSuffix(t: seq<byte>, s: seq<byte>) {
    |t| <= |s| && s[|s| - |t|..] == t
  }

  lemma {:induction false} RunConserves(capacity: nat, link: Link, events: seq<Event>)
    requires |link.ring| <= capacity
    ensures var last := Run(capacity, link, events);
      && link.out + NonEmptyFrames(link.ring + link.wire) == last.out + NonEmptyFrames(last.ring + last.wire)
      && IsSuffix(last.ring + last.wire, link.ring + link.wire)
    decreases |events|
  {
    if events != [] {
      var next := Step(capacity, link, events[0]);
      StepConserves(capacity, link, events[0]);
      RunConserves(capacity, next, events[1..]);
      var last := Run(capacity, link, events);
      SuffixTransitive(last.ring + last.wire, next.ring + next.wire, link.ring + link.wire);
    }
  }

  lemma SuffixTransitive(a: seq<byte>, b: seq<byte>, c: seq<byte>)
    requires IsSuffix(a, b) && IsSuffix(b, c)
    ensures IsSuffix(a, c)
  {
    assert c[|c| - |a|..] == c[|c| - |b|..][|b| - |a|..];
  }

  /**
   Whatever the cutting and interleaving, the non-empty results are a prefix of the messages
   sent, and all of them once the wire is empty and the ring holds no further frame.
   */
  lemma ReceivedMessagesArePrefix(capacity: nat, msgs: seq<seq<byte>>, events: seq<Event>)
    requires Framable(msgs)
    ensures var last := Run(capacity, Link(Encode(msgs), [], []), events);
      && last.out <= msgs
      && (last.wire == [] && NUL !in last.ring ==> last.out == msgs)
  {
    var link := Link(Encode(msgs), [], []);
    var last := Run(capacity, link, events);
    RunConserves(capacity, link, events);
    FramingRoundTripsExactlyWhen(msgs);
    assert link.ring + link.wire == Encode(msgs);
    assert link.out + msgs == msgs;
    if last.wire == [] && NUL !in last.ring {
      assert last.ring + last.wire == last.ring;
      NoFrame(last.ring);
    }
  }

  // ---------- stalling ----------

  /** The ring is full and no frame can be taken: neither receiving nor draining changes anything. */
  predicate Stalled(capacity: nat, link: Link) {
    |link.ring| == capacity && NUL !in link.ring
  }

  /** The `n` bytes at `i`, if there are so many, hold a delimiter. */
  ghost predicate Delimited(s: seq<byte>, i: nat, n: nat) {
    i + n <= |s| ==> exists j :: i <= j < i + n && s[j] == NUL
  }

  /** Every stretch of `capacity` bytes holds a delimiter. */
  ghost predicate Dense(s: seq<byte>, capacity: nat) {
    forall i: nat :: Delimited(s, i, capacity)
  }

  lemma DenseSuffix(t: seq<byte>, s: seq<byte>, capacity: nat)
    requires IsSuffix(t, s) && Dense(s, capacity)
    ensures Dense(t, capacity)
  {
    var d := |s| - |t|;
    forall i: nat ensures Delimited(t, i, capacity) {
      assert Delimited(s, d + i, capacity);
      if i + capacity <= |t| {
        var j :| d + i <= j < d + i + capacity && s[j] == NUL;
        assert t[j - d] == s[j];
      }
    }
  }

  lemma DenseFront(s: seq<byte>, capacity: nat)
    requires Dense(s, capacity) && capacity <= |s|
    ensures NUL in s[..capacity]
  {
    assert Delimited(s, 0, capacity);
    var j :| 0 <= j < capacity && s[j] == NUL;
    assert s[..capacity][j] == NUL;
  }

  /** Receive one frame at a time until an overlong one fills the ring. */
  function StallingRun(s: seq<byte>, capacity: nat): seq<Event>
    decreases |s|
  {
    var i := IndexOf(s, NUL);
    if i >= capacity || i == |s| then [Receive(capacity)]
    else [Receive(i + 1), Drain] + StallingRun(s[i + 1..], capacity)
  }

  lemma {:induction false} StallingRunStalls(s: seq<byte>, capacity: nat, out: seq<seq<byte>>, at: nat)
    requires at + capacity <= |s| && !Delimited(s, at, capacity)
    ensures Stalled(capacity, Run(capacity, Link(s, [], out), StallingRun(s, capacity)))
    decreases |s|
  {
    var link := Link(s, [], out);
    var i := IndexOf(s, NUL);
    var run := StallingRun(s, capacity);
    if i >= capacity {
      var next := Step(capacity, link, Receive(capacity));
      assert next.ring == s[..capacity] == s[..i][..capacity];
      assert run[1..] == [] && Run(capacity, next, []) == next;
    } else {
      assert i < at;
      var one := Step(capacity, link, Receive(i + 1));
      assert one == Link(s[i + 1..], s[..i + 1], out);
      assert s[..i + 1][..i] == s[..i];
      IndexOfUnique(one.ring, NUL, i);
      var two := Step(capacity, one, Drain);
      assert two == Link(s[i + 1..], [], two.out);
      UndelimitedBehind(s, i + 1, at, capacity);
      StallingRunStalls(s[i + 1..], capacity, two.out, at - i - 1);
      RunTwo(capacity, link, Receive(i + 1), Drain, StallingRun(s[i + 1..], capacity));
    }
  }

  lemma UndelimitedBehind(s: seq<byte>, k: nat, at: nat, n: nat)
    requires k <= at && at + n <= |s| && !Delimited(s, at, n)
    ensures !Delimited(s[k..], at - k, n)
  {
    assert forall j :: 0 <= j < |s| - k ==> s[k..][j] == s[k + j];
  }

  lemma RunTwo(capacity: nat, link: Link, e1: Event, e2: Event, rest: seq<Event>)
    requires |link.ring| <= capacity
    ensures Run(capacity, link, [e1, e2] + rest) == Run(capacity, Step(capacity, Step(capacity, link, e1), e2), rest)
  {
    var run := [e1, e2] + rest;
    assert run[1..] == [e2] + rest && run[1..][1..] == rest;
  }

  /** Receiving the stream `s` with these events ends in a stalled state. */
  predicate StallsAfter(s: seq<byte>, capacity: nat, events: seq<Event>) {
    Stalled(capacity, Run(capacity, Link(s, [], []), events))
  }

  /** Some way of cutting and interleaving stalls the receiver exactly when the stream is not dense. */
  lemma ReceiverStallsExactlyWhen(s: seq<byte>, capacity: nat)
    ensures (exists events :: StallsAfter(s, capacity, events)) <==> !Dense(s, capacity)
  {
    if !Dense(s, capacity) {
      var at: nat :| !Delimited(s, at, capacity);
      StallingRunStalls(s, capacity, [], at);
      assert StallsAfter(s, capacity, StallingRun(s, capacity));
    } else {
      forall events ensures !StallsAfter(s, capacity, events) {
        DenseNeverStalls(s, capacity, events);
      }
    }
  }

  lemma DenseNeverStalls(s: seq<byte>, capacity: nat, events: seq<Event>)
    requires Dense(s, capacity)
    ensures !StallsAfter(s, capacity, events)
  {
    var link := Link(s, [], []);
    var last := Run(capacity, link, events);
    RunConserves(capacity, link, events);
    assert link.ring + link.wire == s;
    DenseSuffix(last.ring + last.wire, s, capacity);
    if |last.ring| == capacity {
      DenseFront(last.ring + last.wire, capacity);
      assert (last.ring + last.wire)[..capacity] == last.ring;
    }
  }

  /** A stream of NUL-free messages is dense exactly when every message fits with its terminator. */
  lemma {:induction false} EncodedIsDenseExactlyWhen(msgs: seq<seq<byte>>, capacity: nat)
    requires forall m :: m in msgs ==> NUL !in m
    ensures Dense(Encode(msgs), capacity) <==> (capacity > 0 && forall m :: m in msgs ==> |m| + 1 <= capacity)
  {
    var s := Encode(msgs);
    if capacity == 0 {
      assert !Delimited(s, 0, 0);
    } else if msgs == [] {
      forall i: nat ensures Delimited(s, i, capacity) {}
    } else {
      EncodedIsDenseExactlyWhen(msgs[1..], capacity);
      DenseBehindMessage(msgs[0], Encode(msgs[1..]), capacity);
      assert forall x :: x in msgs <==> x == msgs[0] || x in msgs[1..];
    }
  }

  lemma DenseBehindMessage(m: seq<byte>, tail: seq<byte>, capacity: nat)
    requires NUL !in m && capacity > 0
    ensures Dense(m + [NUL] + tail, capacity) <==> |m| + 1 <= capacity && Dense(tail, capacity)
  {
    var s := m + [NUL] + tail;
    assert s[|m| + 1..] == tail;
    if Dense(s, capacity) {
      DenseSuffix(tail, s, capacity);
      assert Delimited(s, 0, capacity);
      assert forall j :: 0 <= j < |m| ==> s[j] == m[j];
    }
    if |m| + 1 <= capacity && Dense(tail, capacity) {
      forall i: nat ensures Delimited(s, i, capacity) {
        if i <= |m| {
          assert s[|m|] == NUL;
        } else {
          assert Delimited(tail, i - |m| - 1, capacity);
          assert forall j :: 0 <= j < |tail| ==> s[|m| + 1 + j] == tail[j];
        }
      }
    }
  }

  /** With dense bytes ahead, a drain or a receive of one byte makes progress and loses nothing. */
  lemma ReceiverCanStep(capacity: nat, link: Link) returns (e: Event)
    requires |link.ring| <= capacity && Dense(link.ring + link.wire, capacity)
    requires NUL in link.ring || link.wire != []
    ensures var next := Step(capacity, link, e);
      && next.out + NonEmptyFrames(next.ring + next.wire) == link.out + NonEmptyFrames(link.ring + link.wire)
      && Dense(next.ring + next.wire, capacity)
      && 2 * |next.wire| + |next.ring| < 2 * |link.wire| + |link.ring|
  {
    hide NonEmptyFrames, TakeFrame, Dense, IsSuffix;
    e := if NUL in link.ring then Drain else Receive(1);
    assert (link.ring + link.wire)[..|link.ring|] == link.ring;
    if NUL in link.ring {
      DrainConserves(capacity, link);
    } else if |link.ring| == capacity {
      DenseFront(link.ring + link.wire, capacity);
    }
    var next := Step(capacity, link, e);
    StepConserves(capacity, link, e);
    DenseSuffix(next.ring + next.wire, link.ring + link.wire, capacity);
  }

  /** From any state with dense bytes ahead, some schedule hands out every remaining frame. */
  lemma {:induction false} ReceiverCanFinish(capacity: nat, link: Link) returns (events: seq<Event>)
    requires |link.ring| <= capacity && Dense(link.ring + link.wire, capacity)
    ensures Run(capacity, link, events).out == link.out + NonEmptyFrames(link.ring + link.wire)
    decreases 2 * |link.wire| + |link.ring|
  {
    hide NonEmptyFrames, TakeFrame, Dense, Step;
    if NUL !in link.ring && link.wire == [] {
      assert link.ring + link.wire == link.ring;
      NoFrame(link.ring);
      assert link.out + [] == link.out;
      events := [];
    } else {
      var e := ReceiverCanStep(capacity, link);
      var more := ReceiverCanFinish(capacity, Step(capacity, link, e));
      events := [e] + more;
      assert events[1..] == more;
    }
  }

  /**
   With every message NUL-free, non-empty and short enough, no cutting stalls the receiver:
   from wherever a run has got to, it can still go on to hand out exactly the list sent.
   */
  lemma FittingMessagesAlwaysArrive(capacity: nat, msgs: seq<seq<byte>>, events: seq<Event>) returns (more: seq<Event>)
    requires Framable(msgs) && capacity > 0 && forall m :: m in msgs ==> |m| + 1 <= capacity
    ensures var last := Run(capacity, Link(Encode(msgs), [], []), events);
      !StallsAfter(Encode(msgs), capacity, events) && Run(capacity, last, more).out == msgs
  {
    var link := Link(Encode(msgs), [], []);
    var last := Run(capacity, link, events);
    EncodedIsDenseExactlyWhen(msgs, capacity);
    DenseNeverStalls(Encode(msgs), capacity, events);
    RunConserves(capacity, link, events);
    assert link.ring + link.wire == Encode(msgs);
    DenseSuffix(last.ring + last.wire, Encode(msgs), capacity);
    FramingRoundTripsExactlyWhen(msgs);
    more := ReceiverCanFinish(capacity, last);
  }
}
