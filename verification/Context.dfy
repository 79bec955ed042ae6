/**
 The state of an accepted connection. `read_sock` is modelled on one `Context`, and endpoint
 handlers are taken not to touch the receive buffer.

 The ghost `visits` record what each call received. The class invariant says that the bytes
 taken off the stream are those of the visits, and that the run of the step function on what
 these bytes decrypt to has led to the present state and to everything done for the peer;
 that this run refines the parser of whole streams and loses no byte; and that the ring has
 room for the next receive.
 */
module Contexts {
  import opened Options
  import opened Bits
  import opened Attempts
  import opened Receivers
  import opened CircularBuffers
  import opened Framing
  import opened Cryptography
  import opened SecureSockets
  import opened RequestParser

  const ERR_CONTEXT_BUFFER_FULL := 13001
  const ERR_CONTEXT_HANDLE_REQUEST_FAILED := 13002
  const ERR_CONTEXT_HANDLE_READ_FAILED := 13003
  const ERR_CONTEXT_PING_FAILED := 13005

  /** What the peer or an endpoint's handler sees of a call, in order. */
  datatype Action = Fail(code: int) | Echo(data: Bytes) | Serve(header: Header, body: Bytes) | Greet

  function ActionsOfEntry(e: Entry): seq<Action> {
    match e
    case Overflowed => [Fail(ERR_CONTEXT_BUFFER_FULL)]
    case Dispatched(h, body, answer) => Handled(h, body, answer)
    case BadHeader => [Fail(ERR_CONTEXT_HANDLE_READ_FAILED)]
    case ReadFailed => [Fail(ERR_CONTEXT_HANDLE_READ_FAILED)]
    case Echoed(data, sent) => Answered(data, sent)
    case Rehandshake => [Greet]
    case _ => []
  }

  /** What `handle_request` does with a request. */
  function Handled(h: Header, body: Bytes, answer: Answer): seq<Action> {
    match answer
    case NoServer => []
    case Served => [Serve(h, body)]
    case UnknownPath => [Fail(ERR_CONTEXT_HANDLE_REQUEST_FAILED)]
  }

  function Answered(data: Bytes, sent: bool): seq<Action> {
    if sent then [Echo(data)] else [Echo(data), Fail(ERR_CONTEXT_PING_FAILED)]
  }

  function ActionsOf(log: seq<Entry>): seq<Action> {
    if log == [] then [] else ActionsOf(log[..|log| - 1]) + ActionsOfEntry(log[|log| - 1])
  }

  lemma ActionsPush(log: seq<Entry>, e: Entry)
    ensures ActionsOf(log + [e]) == ActionsOf(log) + ActionsOfEntry(e)
  {
    assert (log + [e])[..|log|] == log;
  }

  lemma {:induction false} ActionsConcat(a: seq<Entry>, b: seq<Entry>)
    ensures ActionsOf(a + b) == ActionsOf(a) + ActionsOf(b)
  {
    if b == [] {
      assert a + b == a;
      assert ActionsOf(a) + [] == ActionsOf(a);
    } else {
      var front, e := b[..|b| - 1], b[|b| - 1];
      assert a + b == (a + front) + [e];
      ActionsPush(a + front, e);
      ActionsConcat(a, front);
      Associative(ActionsOf(a), ActionsOf(front), ActionsOfEntry(e));
    }
  }

  /** Entries that only account for bytes are not seen. */
  lemma ActionsOfTake(live: Bytes, e: Entry)
    ensures ActionsOf(TakeLog(live)) == [] && ActionsOf(TakeLog(live) + [e]) == ActionsOfEntry(e)
  {
    ActionsPush([], Took(TakeFrame(live, NUL).0));
    ActionsPush(TakeLog(live), e);
    assert [] + ActionsOfEntry(e) == ActionsOfEntry(e);
    assert [] + [Took(TakeFrame(live, NUL).0)] == [Took(TakeFrame(live, NUL).0)];
  }

  lemma ActionsOfOverflow(log: seq<Entry>, rest: Bytes)
    ensures ActionsOf(log + [Overflowed, Dropped(rest)]) == ActionsOf(log) + [Fail(ERR_CONTEXT_BUFFER_FULL)]
  {
    assert log + [Overflowed, Dropped(rest)] == log + [Overflowed] + [Dropped(rest)];
    ActionsPush(log, Overflowed);
    ActionsPush(log + [Overflowed], Dropped(rest));
    var seen := ActionsOf(log) + [Fail(ERR_CONTEXT_BUFFER_FULL)];
    assert seen + [] == seen;
  }

  // The exits of one call, case by case: the state it leaves, and what is seen of it.

  ghost predicate Leaves(exit: (State, seq<Entry>), state: State, actions: seq<Action>) {
    exit.0 == state && ActionsOf(exit.1) == actions
  }

  lemma BodyExit(config: Config, live: Bytes, h: Header, room: nat)
    ensures var (f, rest) := TakeFrame(live, NUL);
      Leaves(ReadBody(config, live, h, room),
             if room == 0 then State([], None) else State(rest, if f == [] then Some(h) else None),
             (if f == [] then [] else Handled(h, f, Lookup(config, h)))
             + if room == 0 then [Fail(ERR_CONTEXT_BUFFER_FULL)] else [])
  {
    hide ActionsOf, TakeFrame, TakeLog, Lookup, Handled;
    var (f, rest) := TakeFrame(live, NUL);
    var e := Dispatched(h, f, Lookup(config, h));
    ActionsOfTake(live, e);
    var log := TakeLog(live) + if f == [] then [] else [e];
    assert f == [] ==> log == TakeLog(live);
    ActionsOfOverflow(log, rest);
    assert ActionsOf(log) + [] == ActionsOf(log);
  }

  lemma NoHeaderExit(config: Config, live: Bytes, room: nat, echoSent: bool)
    requires TakeFrame(live, NUL).0 == []
    ensures Leaves(AwaitHeader(config, live, room, echoSent),
                   State(if room == 0 then [] else TakeFrame(live, NUL).1, None),
                   if room == 0 then [Fail(ERR_CONTEXT_BUFFER_FULL)] else [])
  {
    hide ActionsOf, TakeFrame, TakeLog;
    ActionsOfTake(live, Overflowed);
    ActionsOfOverflow(TakeLog(live), TakeFrame(live, NUL).1);
    assert [] + [Fail(ERR_CONTEXT_BUFFER_FULL)] == [Fail(ERR_CONTEXT_BUFFER_FULL)];
  }

  /** The frame is a header that needs no body, or none at all; `e` is what becomes of it. */
  lemma OneFrameExit(config: Config, live: Bytes, room: nat, echoSent: bool, e: Entry)
    requires AwaitHeader(config, live, room, echoSent) == (State(TakeFrame(live, NUL).1, None), TakeLog(live) + [e])
    ensures Leaves(AwaitHeader(config, live, room, echoSent), State(TakeFrame(live, NUL).1, None), ActionsOfEntry(e))
  {
    ActionsOfTake(live, e);
  }

  lemma BadHeaderExit(config: Config, live: Bytes, room: nat, echoSent: bool)
    requires TakeFrame(live, NUL).0 != [] && config.parse(TakeFrame(live, NUL).0).None?
    ensures Leaves(AwaitHeader(config, live, room, echoSent),
                   State(TakeFrame(live, NUL).1, None), [Fail(ERR_CONTEXT_HANDLE_READ_FAILED)])
  {
    hide TakeFrame, TakeLog;
    OneFrameExit(config, live, room, echoSent, BadHeader);
  }

  lemma PingExit(config: Config, live: Bytes, room: nat, echoSent: bool, h: Header)
    requires TakeFrame(live, NUL).0 != [] && config.parse(TakeFrame(live, NUL).0) == Some(h) && h.kind.PingKind?
    ensures Leaves(AwaitHeader(config, live, room, echoSent),
                   State(TakeFrame(live, NUL).1, None), Answered(TakeFrame(live, NUL).0, echoSent))
  {
    hide TakeFrame, TakeLog;
    OneFrameExit(config, live, room, echoSent, Echoed(TakeFrame(live, NUL).0, echoSent));
  }

  lemma BareHeaderExit(config: Config, live: Bytes, room: nat, echoSent: bool, h: Header)
    requires TakeFrame(live, NUL).0 != [] && config.parse(TakeFrame(live, NUL).0) == Some(h)
    requires !h.kind.PingKind? && h.size == 0
    ensures Leaves(AwaitHeader(config, live, room, echoSent),
                   State(TakeFrame(live, NUL).1, None), Handled(h, [], Lookup(config, h)))
  {
    hide TakeFrame, TakeLog, Lookup;
    OneFrameExit(config, live, room, echoSent, Dispatched(h, [], Lookup(config, h)));
  }

  /** The frame is a header with a body: the exit is that of the body half on the rest. */
  lemma HeaderWithBodyExit(config: Config, live: Bytes, room: nat, echoSent: bool, h: Header)
    requires TakeFrame(live, NUL).0 != [] && config.parse(TakeFrame(live, NUL).0) == Some(h)
    requires !h.kind.PingKind? && h.size != 0
    ensures var exit := ReadBody(config, TakeFrame(live, NUL).1, h, room);
      Leaves(AwaitHeader(config, live, room, echoSent), exit.0, ActionsOf(exit.1))
  {
    hide ActionsOf, TakeFrame, TakeLog, ReadBody;
    var more := ReadBody(config, TakeFrame(live, NUL).1, h, room).1;
    ActionsOfTake(live, Overflowed);
    ActionsConcat(TakeLog(live), more);
    assert [] + ActionsOf(more) == ActionsOf(more);
  }

  lemma BlockedExit(config: Config, s: State, raw: Bytes, echoSent: bool)
    ensures Leaves(ReadStep(config, s, Blocked(raw), echoSent), State([], s.header), [Greet])
  {
    var e := Dropped(s.live + raw);
    ActionsPush([e], Rehandshake);
    ActionsPush([], e);
    assert [e] + [Rehandshake] == [e, Rehandshake] && [] + [e] == [e];
  }

  lemma QuietExit(config: Config, s: State, echoSent: bool)
    ensures Leaves(ReadStep(config, s, Nothing, echoSent), s, [])
    ensures Leaves(ReadStep(config, s, Failed, echoSent), s, [Fail(ERR_CONTEXT_HANDLE_READ_FAILED)])
  {
    ActionsPush([], ReadFailed);
    assert [] + [ReadFailed] == [ReadFailed];
  }

  /** What the receive hands on when it hands on a text. */
  lemma ReceiveOutcomes(config: Config, c: Crypto, s: State, e: End, got: Reception)
    ensures var r := OutcomeOf(c, e, got);
      && (r.Plain? ==> r.room == got.room && r.text != [])
      && (if e.isSecure then !r.Blocked? else r == Blocked(got.arrived))
  {
  }

  /** The exits before any frame is read, by what was received. */
  lemma ReceiveExits(config: Config, c: Crypto, s: State, e: End, got: Reception, echoSent: bool)
    ensures var exit := ReadStep(config, s, OutcomeOf(c, e, got), echoSent);
      var plain := c.decrypt(got.arrived, e.key, e.iv);
      && (!e.isSecure ==> Leaves(exit, State([], s.header), [Greet]))
      && (e.isSecure && got.arrived == [] ==> Leaves(exit, s, []))
      && (e.isSecure && got.arrived != [] && (plain.None? || plain.value == []) ==>
            Leaves(exit, s, [Fail(ERR_CONTEXT_HANDLE_READ_FAILED)]))
  {
    hide ReadStep;
    BlockedExit(config, s, got.arrived, echoSent);
    QuietExit(config, s, echoSent);
  }

  // ---------- what goes onto the wire ----------

  /** The text sent for an action, if any: encrypted, except for the message that opens a handshake. */
  function Reply(c: Crypto, e: End, now: nat, a: Action): seq<Bytes> {
    match a
    case Fail(code) => SealedText(c, e, c.errorMessage(code, now) + [NUL])
    case Echo(data) => SealedText(c, e, data + [NUL])
    case Serve(_, _) => []
    case Greet => [InitMessage(c, e) + [NUL]]
  }

  function SealedText(c: Crypto, e: End, text: Bytes): seq<Bytes> {
    match Sealed(c, e, text)
    case None => []
    case Some(cipher) => [cipher]
  }

  /** The texts sent for actions in order, the first of which is number `from`; `clock` tells their times. */
  function Replies(c: Crypto, e: End, clock: nat -> nat, from: nat, actions: seq<Action>): seq<Bytes>
    decreases |actions|
  {
    if actions == [] then []
    else Reply(c, e, clock(from), actions[0]) + Replies(c, e, clock, from + 1, actions[1..])
  }

  lemma RepliesCons(c: Crypto, e: End, clock: nat -> nat, from: nat, a: seq<Action>, b: seq<Action>)
    requires a != []
    ensures Replies(c, e, clock, from, a) == Reply(c, e, clock(from), a[0]) + Replies(c, e, clock, from + 1, a[1..])
    ensures Replies(c, e, clock, from, a + b)
         == Reply(c, e, clock(from), a[0]) + Replies(c, e, clock, from + 1, a[1..] + b)
  {
    hide Reply;
    assert (a + b)[1..] == a[1..] + b && (a + b)[0] == a[0];
  }

  lemma NoReplies(c: Crypto, e: End, clock: nat -> nat, from: nat, b: seq<Action>)
    ensures Replies(c, e, clock, from, []) + Replies(c, e, clock, from, b) == Replies(c, e, clock, from, b)
  {
  }

  lemma {:induction false} RepliesConcat(c: Crypto, e: End, clock: nat -> nat, from: nat,
                                         a: seq<Action>, b: seq<Action>)
    ensures Replies(c, e, clock, from, a + b) == Replies(c, e, clock, from, a) + Replies(c, e, clock, from + |a|, b)
    decreases |a|
  {
    hide Reply, Replies;
    if a == [] {
      assert a + b == b;
      NoReplies(c, e, clock, from, b);
    } else {
      RepliesCons(c, e, clock, from, a, b);
      RepliesConcat(c, e, clock, from + 1, a[1..], b);
      Associative(Reply(c, e, clock(from), a[0]), Replies(c, e, clock, from + 1, a[1..]),
                  Replies(c, e, clock, from + |a|, b));
    }
  }

  /** Everything done so far, and the send side of the connection. */
  datatype Deeds = Deeds(actions: seq<Action>, out: Outbound)

  /** One end, with the clock and the state of its line. */
  datatype Speaker = Speaker(crypto: Crypto, end: End, clock: nat -> nat, up: bool)

  /** These actions were added, and the texts they call for were given to the line in their order, nothing else. */
  ghost predicate Acted(s: Speaker, before: Deeds, more: seq<Action>, after: Deeds) {
    && after.actions == before.actions + more
    && Spoke(s.up, before.out, Replies(s.crypto, s.end, s.clock, |before.actions|, more), after.out)
  }

  lemma ActedNothing(s: Speaker, d: Deeds)
    ensures Acted(s, d, [], d)
  {
    assert d.actions + [] == d.actions;
    SpokeNothing(s.up, d.out);
  }

  lemma ActedAppends(s: Speaker, before: Deeds, more: seq<Action>, after: Deeds)
    requires Acted(s, before, more, after)
    ensures after.actions == before.actions + more
  {
  }

  lemma ActedThen(s: Speaker, d0: Deeds, x: seq<Action>, d1: Deeds, y: seq<Action>, d2: Deeds)
    requires Acted(s, d0, x, d1) && Acted(s, d1, y, d2)
    ensures Acted(s, d0, x + y, d2)
  {
    hide Spoke, Replies;
    var from := |d0.actions|;
    RepliesConcat(s.crypto, s.end, s.clock, from, x, y);
    SpokeThen(s.up, d0.out, Replies(s.crypto, s.end, s.clock, from, x),
              d1.out, Replies(s.crypto, s.end, s.clock, from + |x|, y), d2.out);
    Associative(d0.actions, x, y);
  }

  lemma RepliesOne(s: Speaker, from: nat, a: Action)
    ensures Replies(s.crypto, s.end, s.clock, from, [a]) == Reply(s.crypto, s.end, s.clock(from), a)
  {
    assert [a][1..] == [];
    var r := Reply(s.crypto, s.end, s.clock(from), a);
    assert r + [] == r;
  }

  /** An action whose text was sealed and given to the line. */
  lemma ActedBySending(s: Speaker, before: Deeds, a: Action, text: Bytes, after: Deeds, ok: bool)
    requires Reply(s.crypto, s.end, s.clock(|before.actions|), a) == SealedText(s.crypto, s.end, text)
    requires after.actions == before.actions + [a]
    requires var cipher := Sealed(s.crypto, s.end, text);
      if cipher.None? then after.out == before.out else Transmitted(s.up, before.out, cipher.value, after.out, ok)
    ensures Acted(s, before, [a], after)
  {
    hide Transmitted, Spoke;
    RepliesOne(s, |before.actions|, a);
    var cipher := Sealed(s.crypto, s.end, text);
    if cipher.None? {
      SpokeNothing(s.up, before.out);
    } else {
      SpokeOnce(s.up, before.out, cipher.value, after.out, ok);
    }
  }

  /** `echoSent` is true exactly when the first action is an echo, and its text went out whole. */
  ghost predicate EchoTold(s: Speaker, before: Deeds, after: Deeds, echoSent: bool) {
    echoSent <==>
      && |before.actions| < |after.actions| && after.actions[|before.actions|].Echo?
      && Sealed(s.crypto, s.end, after.actions[|before.actions|].data + [NUL]).Some?
      && |before.out.done| < |after.out.done| && after.out.done[|before.out.done|].ok
  }

  /** Whether an echo went out is not changed by what follows it. */
  lemma EchoStaysTold(s: Speaker, d0: Deeds, a: Action, d1: Deeds, more: seq<Action>, d2: Deeds, sent: bool)
    requires Acted(s, d0, [a], d1) && Acted(s, d1, more, d2) && EchoTold(s, d0, d1, sent) && a.Echo?
    ensures EchoTold(s, d0, d2, sent)
  {
    RepliesOne(s, |d0.actions|, a);
    assert d2.actions[|d0.actions|] == a == d1.actions[|d0.actions|];
    var one := d1.out.done[|d0.out.done|..];
    var cipher := Sealed(s.crypto, s.end, a.data + [NUL]);
    if cipher.Some? && s.up {
      assert DataOf(one) == [cipher.value];
      assert |d0.out.done| < |d1.out.done|;
      assert d2.out.done[..|d1.out.done|][|d0.out.done|] == d1.out.done[|d0.out.done|];
    }
  }

  lemma NoEcho(s: Speaker, before: Deeds, more: seq<Action>, after: Deeds)
    requires Acted(s, before, more, after) && (more != [] ==> !more[0].Echo?)
    ensures EchoTold(s, before, after, false)
  {
  }

  lemma HandledIsNoEcho(h: Header, body: Bytes, answer: Answer)
    ensures Handled(h, body, answer) != [] ==> !Handled(h, body, answer)[0].Echo?
  {
  }

  lemma BodyIsNoEcho(config: Config, live: Bytes, h: Header, room: nat)
    ensures var seen := ActionsOf(ReadBody(config, live, h, room).1);
      seen != [] ==> !seen[0].Echo?
  {
    hide ActionsOf, ReadBody;
    BodyExit(config, live, h, room);
  }

  // ---------- the history of a connection ----------

  /** One call: the socket's keys at its start, what was received, and whether an echo went out. */
  datatype Visit = Visit(end: End, got: Reception, echoSent: bool)

  /** What the bytes that arrived decrypt to. */
  function InputOf(c: Crypto, v: Visit): Input {
    Input(OutcomeOf(c, v.end, v.got), v.echoSent)
  }

  function InputsOf(c: Crypto, visits: seq<Visit>): seq<Input> {
    if visits == [] then [] else InputsOf(c, visits[..|visits| - 1]) + [InputOf(c, visits[|visits| - 1])]
  }

  /** The bytes taken off the stream. */
  function Chunks(visits: seq<Visit>): Bytes {
    if visits == [] then [] else Chunks(visits[..|visits| - 1]) + visits[|visits| - 1].got.chunk
  }

  function HistoryOf(config: Config, c: Crypto, visits: seq<Visit>): Trace {
    RequestParser.Run(config, FRESH, InputsOf(c, visits))
  }

  /** What the class keeps about its past, apart from the present state: see `Context.Valid`. */
  ghost predicate Grounded(config: Config, c: Crypto, visits: seq<Visit>, actions: seq<Action>) {
    && Sound(config, DEFAULT_CAPACITY, HistoryOf(config, c, visits))
    && FromScratch(HistoryOf(config, c, visits))
    && actions == ActionsOf(HistoryOf(config, c, visits).log)
    && (forall v :: v in visits ==> Genuine(v.got))
  }

  lemma GroundedAtStart(config: Config, c: Crypto)
    ensures HistoryOf(config, c, []) == FRESH && Grounded(config, c, [], [])
  {
    FreshIsInStep(config);
  }

  /** A call adds one step to the history. */
  lemma GroundedKept(config: Config, c: Crypto, visits: seq<Visit>, actions: seq<Action>, v: Visit)
    requires Grounded(config, c, visits, actions) && Genuine(v.got)
    requires var s := HistoryOf(config, c, visits).state;
      Feasible(DEFAULT_CAPACITY, s.live, InputOf(c, v).received) && (InputOf(c, v).received.Blocked? ==> s.header.None?)
    ensures var s := HistoryOf(config, c, visits).state;
      var exit := ReadStep(config, s, InputOf(c, v).received, v.echoSent);
      && HistoryOf(config, c, visits + [v]).state == exit.0
      && Grounded(config, c, visits + [v], actions + ActionsOf(exit.1))
    ensures Chunks(visits + [v]) == Chunks(visits) + v.got.chunk
  {
    hide Sound, FromScratch, ReadStep, Genuine, ActionsOf, Feasible;
    var t := HistoryOf(config, c, visits);
    assert (visits + [v])[..|visits|] == visits;
    RunPush(config, FRESH, InputsOf(c, visits), InputOf(c, v));
    NextSound(config, DEFAULT_CAPACITY, t, InputOf(c, v));
    NextFromScratch(config, t, InputOf(c, v));
    ActionsConcat(t.log, ReadStep(config, t.state, InputOf(c, v).received, v.echoSent).1);
  }

  lemma ConsumedIsTaken(before: Inbound, got: Reception, after: Inbound)
    requires Consumed(before, got.chunk, got.made, after)
    ensures after.taken == before.taken + got.chunk
  {
  }

  // ---------- what the handlers see ----------

  /** The requests served and the pings answered. */
  function Handlings(actions: seq<Action>): seq<Action> {
    if actions == [] then []
    else
      var a := actions[|actions| - 1];
      Handlings(actions[..|actions| - 1]) + if a.Serve? || a.Echo? then [a] else []
  }

  /** What is to be done for an event of the stream parser. */
  function ExpectedFor(config: Config, e: RequestParser.Event): seq<Action> {
    match e
    case Ping(data) => [Echo(data)]
    case Malformed => []
    case Request(h, body) => if config.server.Some? && h.path in config.server.value then [Serve(h, body)] else []
  }

  function Expected(config: Config, events: seq<RequestParser.Event>): seq<Action> {
    if events == [] then []
    else Expected(config, events[..|events| - 1]) + ExpectedFor(config, events[|events| - 1])
  }

  lemma {:induction false} HandlingsConcat(a: seq<Action>, b: seq<Action>)
    ensures Handlings(a + b) == Handlings(a) + Handlings(b)
  {
    if b == [] {
      assert a + b == a && Handlings(a) + [] == Handlings(a);
    } else {
      var front, last := b[..|b| - 1], b[|b| - 1];
      assert (a + b)[..|a + b| - 1] == a + front;
      HandlingsConcat(a, front);
      Associative(Handlings(a), Handlings(front), if last.Serve? || last.Echo? then [last] else []);
    }
  }

  lemma {:induction false} ExpectedConcat(config: Config, a: seq<RequestParser.Event>, b: seq<RequestParser.Event>)
    ensures Expected(config, a + b) == Expected(config, a) + Expected(config, b)
  {
    if b == [] {
      assert a + b == a && Expected(config, a) + [] == Expected(config, a);
    } else {
      var front, last := b[..|b| - 1], b[|b| - 1];
      assert (a + b)[..|a + b| - 1] == a + front;
      ExpectedConcat(config, a, front);
      Associative(Expected(config, a), Expected(config, front), ExpectedFor(config, last));
    }
  }

  /** The answers in a log are those of the server. */
  ghost predicate Truthful(config: Config, log: seq<Entry>) {
    forall e :: e in log && e.Dispatched? ==> e.answer == Lookup(config, e.header)
  }

  lemma {:induction false} RunIsTruthful(config: Config, t: Trace, inputs: seq<Input>)
    requires Truthful(config, t.log)
    ensures Truthful(config, RequestParser.Run(config, t, inputs).log)
    decreases |inputs|
  {
    if inputs != [] {
      StepIsTruthful(config, t.state, inputs[0].received, inputs[0].echoSent);
      RunIsTruthful(config, Next(config, t, inputs[0]), inputs[1..]);
    }
  }

  lemma StepIsTruthful(config: Config, s: State, r: Received, echoSent: bool)
    ensures Truthful(config, ReadStep(config, s, r, echoSent).1)
  {
    hide AwaitHeader, ReadBody, Lookup;
    if r.Plain? {
      if s.header.None? {
        HeaderIsTruthful(config, s.live + r.text, r.room, echoSent);
      } else {
        BodyIsTruthful(config, s.live + r.text, s.header.value, r.room);
      }
    }
  }

  lemma HeaderIsTruthful(config: Config, live: Bytes, room: nat, echoSent: bool)
    ensures Truthful(config, AwaitHeader(config, live, room, echoSent).1)
  {
    hide TakeFrame, ReadBody, Lookup;
    var (f, rest) := TakeFrame(live, NUL);
    if f != [] && config.parse(f).Some? {
      BodyIsTruthful(config, rest, config.parse(f).value, room);
    }
  }

  lemma BodyIsTruthful(config: Config, live: Bytes, h: Header, room: nat)
    ensures Truthful(config, ReadBody(config, live, h, room).1)
  {
    hide TakeFrame, Lookup;
  }

  lemma HandlingsOne(a: Action)
    ensures Handlings([a]) == if a.Serve? || a.Echo? then [a] else []
  {
    assert [a][..0] == [];
  }

  /** What was done for one entry is what its event calls for. */
  lemma EntryHandled(config: Config, e: Entry)
    requires e.Dispatched? ==> e.answer == Lookup(config, e.header)
    ensures Handlings(ActionsOfEntry(e)) == Expected(config, EventOf(e))
  {
    hide Handlings, Expected;
    NothingHandled(config);
    var seen := ActionsOfEntry(e);
    if |seen| == 1 {
      assert seen == [seen[0]];
      HandlingsOne(seen[0]);
    } else if seen != [] {
      FailedEchoHandled(e.data);
    }
    var event := EventOf(e);
    if event != [] {
      assert event == [event[0]];
      ExpectedOne(config, event[0]);
    }
  }

  lemma NothingHandled(config: Config)
    ensures Handlings([]) == [] && Expected(config, []) == []
  {
  }

  lemma FailedEchoHandled(data: Bytes)
    ensures Handlings([Echo(data), Fail(ERR_CONTEXT_PING_FAILED)]) == [Echo(data)]
  {
    assert [Echo(data), Fail(ERR_CONTEXT_PING_FAILED)][..1] == [Echo(data)];
    HandlingsOne(Echo(data));
    assert [Echo(data)] + [] == [Echo(data)];
  }

  lemma ExpectedOne(config: Config, e: RequestParser.Event)
    ensures Expected(config, [e]) == ExpectedFor(config, e)
  {
    assert [e][..0] == [] && [] + ExpectedFor(config, e) == ExpectedFor(config, e);
  }

  lemma {:induction false} LogHandled(config: Config, log: seq<Entry>)
    requires Truthful(config, log)
    ensures Handlings(ActionsOf(log)) == Expected(config, EventsOf(log))
  {
    if log != [] {
      var front, e := log[..|log| - 1], log[|log| - 1];
      assert log == front + [e] && forall x :: x in front ==> x in log;
      LogHandled(config, front);
      HandlingsConcat(ActionsOf(front), ActionsOfEntry(e));
      EventsConcat(front, [e]);
      Singleton(e);
      ExpectedConcat(config, EventsOf(front), EventOf(e));
      EntryHandled(config, e);
    }
  }

  lemma ExpectedPrefix(config: Config, a: seq<RequestParser.Event>, b: seq<RequestParser.Event>)
    requires a <= b
    ensures Expected(config, a) <= Expected(config, b)
  {
    assert b == a + b[|a|..];
    ExpectedConcat(config, a, b[|a|..]);
  }

  class Context {
    const config: Config
    const sock: SecureSocket
    /** The time at which the n-th action is reported. */
    const clock: nat -> nat
    /** What had been taken off the stream before the connection was handed over. */
    ghost const start: Bytes
    var headerData: Bytes
    var requestData: Bytes
    var header: Header
    var headerParsed: bool
    /** What was done for the peer so far, oldest first. */
    var actions: seq<Action>
    ghost var visits: seq<Visit>

    ghost function Contents(): Bytes
      requires sock.Valid()
      reads this, sock, sock.sock, sock.sock.buf, sock.sock.buf.buf
    {
      sock.Contents()
    }

    ghost function View(): State
      requires sock.Valid()
      reads this, sock, sock.sock, sock.sock.buf, sock.sock.buf.buf
    {
      State(sock.Contents(), if headerParsed then Some(header) else None)
    }

    /** The run of the step function on what every call so far has received. */
    ghost function History(): Trace
      reads this
    {
      HistoryOf(config, sock.crypto, visits)
    }

    ghost predicate Valid()
      reads this, sock, sock.sock, sock.sock.rx, sock.sock.buf, sock.sock.buf.buf
    {
      && sock.Valid()
      && History().state == View()
      && Grounded(config, sock.crypto, visits, actions)
      && sock.sock.rx.taken == start + Chunks(visits)
      && (headerParsed ==> sock.isSecure)
    }

    /**
     The plaintext of the history is what the bytes taken off the stream decrypt to, and every
     byte of it was read as a frame, dropped, or is still in the ring, in this order.
     */
    lemma TakenBytesAreAccountedFor()
      requires Valid()
      ensures sock.sock.rx.taken == start + Chunks(visits)
      ensures forall v :: v in visits ==> Genuine(v.got)
      ensures History().received == AllIncoming(InputsOf(sock.crypto, visits)) == BytesOf(History().log) + Contents()
    {
      ReceivedIsIncoming(config, InputsOf(sock.crypto, visits));
    }

    /**
     When the visits brought the ciphertexts of a list of messages, whole and in order, and the
     ring did not overflow, the requests served and the pings answered are those the messages
     call for, in order: the first of them, and all once everything has come and been read.
     */
    lemma HandlersSeeTheMessages(key: Bytes, iv: Bytes, msgs: seq<Bytes>)
      requires Valid() && Decrypts(sock.crypto) && Framable(msgs) && History().closed == []
      requires Delivers(sock.crypto, key, iv, msgs, InputsOf(sock.crypto, visits))
      ensures var expected := Expected(config, ParseFrames(config.parse, msgs, None).0);
        && Handlings(actions) <= expected
        && (History().received == Encode(msgs) && Contents() == [] ==> Handlings(actions) == expected)
    {
      hide Sound, Genuine;
      var inputs := InputsOf(sock.crypto, visits);
      EncryptedRequestsArriveInOrder(sock.crypto, key, iv, config, msgs, inputs);
      RunIsTruthful(config, FRESH, inputs);
      LogHandled(config, History().log);
      ExpectedPrefix(config, EventsOf(History().log), ParseFrames(config.parse, msgs, None).0);
    }

    /**
     When, besides, every receive that brought plaintext left room, there is nothing to wait
     for: exactly the messages delivered so far have been handled, and the ring is empty.
     */
    lemma HandlersKeepUp(key: Bytes, iv: Bytes, msgs: seq<Bytes>) returns (count: nat)
      requires Valid() && Decrypts(sock.crypto) && Framable(msgs)
      requires Delivers(sock.crypto, key, iv, msgs, InputsOf(sock.crypto, visits))
      requires RoomLeft(InputsOf(sock.crypto, visits))
      ensures count <= |msgs| && History().received == Encode(msgs[..count]) && Contents() == []
      ensures Handlings(actions) == Expected(config, ParseFrames(config.parse, msgs[..count], None).0)
    {
      hide Sound, Genuine;
      var inputs := InputsOf(sock.crypto, visits);
      count := EncryptedRequestsAreHandledAtOnce(sock.crypto, key, iv, config, FRESH, msgs, inputs);
      RunIsTruthful(config, FRESH, inputs);
      LogHandled(config, History().log);
      var events := ParseFrames(config.parse, msgs[..count], None).0;
      assert [] + events == events && [] + Encode(msgs[..count]) == Encode(msgs[..count]);
    }

    constructor (config: Config, sock: SecureSocket, clock: nat -> nat)
      requires sock.Valid() && sock.Contents() == []
      ensures Valid() && visits == [] && this.sock == sock && this.config == config
    {
      this.config, this.sock, this.clock, this.start := config, sock, clock, sock.sock.rx.taken;
      headerData, requestData, header, headerParsed := [], [], Header(Unspecified, 0, ""), false;
      actions, visits := [], [];
      GroundedAtStart(config, sock.crypto);
      assert sock.sock.rx.taken + [] == sock.sock.rx.taken;
    }

    ghost function Done(): Deeds
      reads this, sock.sock.rx
    {
      Deeds(actions, sock.sock.rx.Out())
    }

    ghost function Self(): Speaker
      reads this, sock, sock.sock.rx
    {
      Speaker(sock.crypto, sock.View(), clock, sock.sock.rx.Connected())
    }

    method Reset()
      modifies this`headerData, this`requestData, this`headerParsed
      ensures headerData == [] && requestData == [] && !headerParsed
    {
      requestData := [];
      headerData := [];
      headerParsed := false;
    }

    /** Unless there is no key, no ciphertext or no line, or the line refused, the peer can decrypt this text. */
    ghost predicate Reported(before: Outbound, text: Bytes)
      reads this, sock, sock.sock.rx
    {
      var cipher := sock.crypto.encrypt(text, sock.key, sock.iv);
      if !sock.isSecure || cipher.None? || sock.sock.rx.fd == 0 || sock.sock.rx.listening
      then sock.sock.rx.Out() == before
      else sock.sock.rx.refused == before.refused ==>
        && sock.sock.rx.sent == before.sent + cipher.value
        && (Decrypts(sock.crypto) ==>
              sock.crypto.decrypt(sock.sock.rx.sent[|before.sent|..], sock.key, sock.iv) == Some(text))
    }

    method DoError(code: int)
      modifies this`actions, sock.sock.rx`sent, sock.sock.rx`refused, sock.sock.rx`done
      ensures Acted(Self(), old(Done()), [Fail(code)], Done())
      ensures actions == old(actions) + [Fail(code)]
      ensures Reported(old(sock.sock.rx.Out()), sock.crypto.errorMessage(code, clock(|old(actions)|)) + [NUL])
    {
      hide Transmitted, Acted;
      ghost var before := Done();
      var text := sock.crypto.errorMessage(code, clock(|actions|));
      actions := actions + [Fail(code)];
      var ok := sock.TrySend(text, true);
      ActedBySending(Self(), before, Fail(code), text + [NUL], Done(), ok);
    }

    /** Without a server nothing is done; a registered path is served; any other is an error. */
    ghost predicate HandledByPath(before: Deeds)
      reads this, sock.sock.rx
    {
      if config.server.None? then Done() == before
      else if header.path in config.server.value
      then actions == before.actions + [Serve(header, requestData)] && sock.sock.rx.Out() == before.out
      else actions == before.actions + [Fail(ERR_CONTEXT_HANDLE_REQUEST_FAILED)]
    }

    method HandleRequest()
      modifies this`actions, sock.sock.rx`sent, sock.sock.rx`refused, sock.sock.rx`done
      ensures Acted(Self(), old(Done()), Handled(header, requestData, Lookup(config, header)), Done())
      ensures HandledByPath(old(Done()))
    {
      if config.server.None? {
        ActedNothing(Self(), Done());
        return;
      }
      if header.path !in config.server.value {
        DoError(ERR_CONTEXT_HANDLE_REQUEST_FAILED);
      } else {
        ghost var before := Done();
        actions := actions + [Serve(header, requestData)];
        RepliesOne(Self(), |before.actions|, Serve(header, requestData));
        SpokeNothing(Self().up, before.out);
      }
    }

    /** Send a ping back. */
    method PostEcho() returns (sent: bool)
      modifies this`actions, sock.sock.rx`sent, sock.sock.rx`refused, sock.sock.rx`done
      ensures Acted(Self(), old(Done()), [Echo(headerData)], Done())
      ensures EchoTold(Self(), old(Done()), Done(), sent)
      ensures sent && Decrypts(sock.crypto) ==> EchoArrives(old(sock.sock.rx.sent))
    {
      ghost var before := Done();
      actions := actions + [Echo(headerData)];
      sent := sock.TrySend(headerData, true);
      ActedBySending(Self(), before, Echo(headerData), headerData + [NUL], Done(), sent);
    }

    /** What was added to the wire decrypts to the ping and its terminator. */
    ghost predicate EchoArrives(before: Bytes)
      reads this, sock, sock.sock.rx
    {
      && before <= sock.sock.rx.sent
      && sock.crypto.decrypt(sock.sock.rx.sent[|before|..], sock.key, sock.iv) == Some(headerData + [NUL])
    }

    /** Answer a ping with the ping itself, or report that this failed. */
    method AnswerPing() returns (sent: bool)
      modifies this`actions, sock.sock.rx`sent, sock.sock.rx`refused, sock.sock.rx`done
      ensures Acted(Self(), old(Done()), Answered(headerData, sent), Done())
      ensures EchoTold(Self(), old(Done()), Done(), sent)
      ensures sent && Decrypts(sock.crypto) ==> EchoArrives(old(sock.sock.rx.sent))
      ensures sent ==> actions == old(actions) + [Echo(headerData)]
      ensures !sent ==> actions == old(actions) + [Echo(headerData), Fail(ERR_CONTEXT_PING_FAILED)]
    {
      hide Reported, Decrypts, Acted, EchoTold;
      ghost var before := Done();
      sent := PostEcho();
      ActedAppends(Self(), before, [Echo(headerData)], Done());
      if !sent {
        ghost var after := Done();
        DoError(ERR_CONTEXT_PING_FAILED);
        ActedThen(Self(), before, [Echo(headerData)], after, [Fail(ERR_CONTEXT_PING_FAILED)], Done());
        assert [Echo(headerData)] + [Fail(ERR_CONTEXT_PING_FAILED)]
            == [Echo(headerData), Fail(ERR_CONTEXT_PING_FAILED)];
        EchoStaysTold(Self(), before, Echo(headerData), after, [Fail(ERR_CONTEXT_PING_FAILED)], Done(), sent);
      }
    }

    /** Read a frame and, if there was one, handle it as the body of the pending header. */
    method TakeBody()
      requires sock.Valid() && headerParsed
      modifies this`requestData, this`headerParsed, this`actions
      modifies sock.sock.rx`sent, sock.sock.rx`refused, sock.sock.rx`done, sock.sock.buf, sock.sock.buf.buf
      ensures sock.Valid() && (requestData, Contents()) == TakeFrame(old(Contents()), NUL)
      ensures headerParsed == (requestData == [])
      ensures Acted(Self(), old(Done()),
                    if requestData == [] then [] else Handled(header, requestData, Lookup(config, header)), Done())
    {
      hide TakeFrame, FirstFrame, Lookup, Handled, Acted, HandledByPath;
      ActedNothing(Self(), Done());
      requestData := sock.sock.ReadBuffer(NUL);
      if |requestData| != 0 {
        HandleRequest();
        headerParsed := false;
      }
    }

    /** The second half of `read_sock`: a header is pending and its body may have arrived. */
    method ReadRequest(canWrite: nat)
      requires sock.Valid() && headerParsed
      modifies this`headerData, this`requestData, this`headerParsed, this`actions
      modifies sock.sock.rx`sent, sock.sock.rx`refused, sock.sock.rx`done, sock.sock.buf, sock.sock.buf.buf
      ensures sock.Valid() && View() == ReadBody(config, old(Contents()), header, canWrite).0
      ensures Acted(Self(), old(Done()), ActionsOf(ReadBody(config, old(Contents()), header, canWrite).1), Done())
    {
      hide TakeFrame, Lookup, Handled, ActionsOf, ReadBody, Acted, Reported;
      BodyExit(config, Contents(), header, canWrite);
      ghost var before := Done();
      TakeBody();
      ghost var seen := if requestData == [] then [] else Handled(header, requestData, Lookup(config, header));
      if canWrite == 0 {
        ghost var middle := Done();
        DoError(ERR_CONTEXT_BUFFER_FULL);
        ActedThen(Self(), before, seen, middle, [Fail(ERR_CONTEXT_BUFFER_FULL)], Done());
        sock.sock.ClearBuffer();
        Reset();
      } else {
        assert seen + [] == seen;
      }
    }

    /** The first half: no header is pending. It goes on to the second when it has parsed one. */
    method ReadHeader(canWrite: nat) returns (ghost echoSent: bool)
      requires sock.Valid() && !headerParsed
      modifies this`headerData, this`requestData, this`header, this`headerParsed, this`actions
      modifies sock.sock.rx`sent, sock.sock.rx`refused, sock.sock.rx`done, sock.sock.buf, sock.sock.buf.buf
      ensures sock.Valid() && View() == AwaitHeader(config, old(Contents()), canWrite, echoSent).0
      ensures Acted(Self(), old(Done()), ActionsOf(AwaitHeader(config, old(Contents()), canWrite, echoSent).1), Done())
      ensures EchoTold(Self(), old(Done()), Done(), echoSent)
    {
      hide TakeFrame, AwaitHeader, Lookup, Handled, ActionsOf, ReadBody, Acted, Answered, EchoTold, Reported;
      hide Decrypts, HandledByPath, EchoArrives, FirstFrame;
      ghost var live, before := Contents(), Done();
      echoSent := false;
      Reset();
      headerData := sock.sock.ReadBuffer(NUL);
      if |headerData| == 0 {
        NoHeaderExit(config, live, canWrite, false);
        ActedNothing(Self(), before);
        if canWrite == 0 {
          DoError(ERR_CONTEXT_BUFFER_FULL);
          sock.sock.ClearBuffer();
        }
        NoEcho(Self(), before, if canWrite == 0 then [Fail(ERR_CONTEXT_BUFFER_FULL)] else [], Done());
        return;
      }

      var parsed := config.parse(headerData);
      if parsed.None? {
        BadHeaderExit(config, live, canWrite, false);
        DoError(ERR_CONTEXT_HANDLE_READ_FAILED);
        NoEcho(Self(), before, [Fail(ERR_CONTEXT_HANDLE_READ_FAILED)], Done());
        return;
      }
      header := parsed.value;

      if header.kind.PingKind? {
        var sent := AnswerPing();
        echoSent := sent;
        PingExit(config, live, canWrite, sent, header);
        return;
      }

      if header.size == 0 {
        ghost var answer := Lookup(config, header);
        BareHeaderExit(config, live, canWrite, false, header);
        HandleRequest();
        HandledIsNoEcho(header, [], answer);
        NoEcho(Self(), before, Handled(header, [], answer), Done());
        return;
      }

      headerParsed := true;
      HeaderWithBodyExit(config, live, canWrite, false, header);
      ghost var rest := Contents();
      ReadRequest(canWrite);
      BodyIsNoEcho(config, rest, header, canWrite);
      NoEcho(Self(), before, ActionsOf(ReadBody(config, rest, header, canWrite).1), Done());
    }

    /** Act on what was received; `before` is the state the receive started from. */
    method Handle(nbytes: int, canWrite: nat, freshIv: Bytes, ghost before: State, ghost outcome: Received)
      returns (ghost echoSent: bool)
      requires sock.Valid() && nbytes == Code(outcome)
      requires View() == State(After(before.live, outcome), before.header)
      requires outcome.Plain? ==> outcome.room == canWrite && outcome.text != []
      modifies this`headerData, this`requestData, this`header, this`headerParsed, this`actions
      modifies sock, sock.sock.rx`sent, sock.sock.rx`refused, sock.sock.rx`done, sock.sock.buf, sock.sock.buf.buf
      ensures sock.Valid() && View() == ReadStep(config, before, outcome, echoSent).0
      ensures Acted(Self(), old(Done()), ActionsOf(ReadStep(config, before, outcome, echoSent).1), Done())
      ensures EchoTold(Self(), old(Done()), Done(), echoSent)
      ensures sock.View() == if outcome.Blocked? then InitEnd(old(sock.View()), freshIv) else old(sock.View())
    {
      hide ActionsOf, AwaitHeader, ReadBody, Acted, EchoTold, Reported;
      ghost var was := Done();
      echoSent := false;
      if nbytes == -2 {
        BlockedExit(config, before, outcome.raw, false);
        Greeting(freshIv);
        NoEcho(Self(), was, [Greet], Done());
        return;
      }
      if nbytes == -1 {
        QuietExit(config, before, false);
        DoError(ERR_CONTEXT_HANDLE_READ_FAILED);
        NoEcho(Self(), was, [Fail(ERR_CONTEXT_HANDLE_READ_FAILED)], Done());
        return;
      }
      if nbytes == 0 {
        QuietExit(config, before, false);
        ActedNothing(Self(), was);
        NoEcho(Self(), was, [], Done());
        return;
      }
      if !headerParsed {
        echoSent := ReadHeader(canWrite);
      } else {
        BodyIsNoEcho(config, Contents(), header, canWrite);
        ghost var seen := ActionsOf(ReadBody(config, Contents(), header, canWrite).1);
        ReadRequest(canWrite);
        NoEcho(Self(), was, seen, Done());
      }
    }

    /** Open a handshake. */
    method Greeting(freshIv: Bytes)
      modifies this`actions, sock, sock.sock.rx`sent, sock.sock.rx`refused, sock.sock.rx`done
      ensures Acted(Self(), old(Done()), [Greet], Done())
      ensures sock.View() == InitEnd(old(sock.View()), freshIv)
    {
      hide Transmitted, Spoke;
      ghost var before := Done();
      actions := actions + [Greet];
      var ok := sock.HandshakeInit(freshIv);
      RepliesOne(Self(), |before.actions|, Greet);
      SpokeOnce(Self().up, before.out, InitMessage(sock.crypto, sock.View()) + [NUL], Done().out, ok);
    }

    /**
     Receive once and handle at most one request. The call takes `got.chunk` off the stream and
     makes one step on what the bytes that arrived decrypt to; `echoSent` is whether a ping was
     answered.
     */
    method ReadSock(freshIv: Bytes) returns (ghost got: Reception, ghost echoSent: bool)
      requires sock.Valid()
      modifies this`headerData, this`requestData, this`header, this`headerParsed, this`actions
      modifies sock, sock.sock.rx, sock.sock.buf, sock.sock.buf.buf
      ensures sock.Valid() && Genuine(got) && got.place == old(sock.sock.buf.Where())
      ensures Consumed(old(sock.sock.rx.In()), got.chunk, got.made, sock.sock.rx.In()) && AskedForBytes(got.made)
      ensures got.made == [] <==> |old(Contents())| == DEFAULT_CAPACITY
      ensures View() == StepOn(old(View()), old(sock.View()), got, echoSent).0
      ensures Acted(Self(), old(Done()), ActionsOf(StepOn(old(View()), old(sock.View()), got, echoSent).1), Done())
      ensures EchoTold(Self(), old(Done()), Done(), echoSent)
      ensures sock.View() == if old(sock.isSecure) then old(sock.View()) else InitEnd(old(sock.View()), freshIv)
      ensures Feasible(DEFAULT_CAPACITY, old(Contents()), OutcomeOf(sock.crypto, old(sock.View()), got))
      ensures Filled(got.made) ==> |got.chunk| == DEFAULT_CAPACITY - |old(Contents())|
      ensures !old(sock.isSecure) ==> Contents() == [] && actions == old(actions) + [Greet]
      ensures old(sock.isSecure) && got.arrived == [] ==> View() == old(View()) && actions == old(actions)
      ensures old(sock.isSecure) && got.arrived != [] ==>
        var plain := sock.crypto.decrypt(got.arrived, sock.key, sock.iv);
        plain.None? || plain.value == [] ==>
          View() == old(View()) && actions == old(actions) + [Fail(ERR_CONTEXT_HANDLE_READ_FAILED)]
    {
      hide Consumed, Genuine, ActionsOf, ReadStep, Acted, EchoTold, Filled, OutcomeOf, Code, After, Feasible;
      var nbytes, canWrite;
      ghost var before, s, e := Done(), View(), sock.View();
      nbytes, canWrite, got := sock.TryRecv();
      ghost var outcome := OutcomeOf(sock.crypto, e, got);
      ReceiveOutcomes(config, sock.crypto, s, e, got);
      echoSent := Handle(nbytes, canWrite, freshIv, s, outcome);
      ActedAppends(Self(), before, ActionsOf(StepOn(s, e, got, echoSent).1), Done());
      ReceiveExits(config, sock.crypto, s, e, got, echoSent);
    }

    /** One step of the request machine on a reception. */
    ghost function StepOn(s: State, e: End, got: Reception, echoSent: bool): (State, seq<Entry>) {
      ReadStep(config, s, OutcomeOf(sock.crypto, e, got), echoSent)
    }

    /**
     A receive event: one `read_sock`, added to the history. A blocked call never meets a
     pending header, so it leaves nothing behind.
     */
    method OnReadable(freshIv: Bytes) returns (ghost got: Reception, ghost echoSent: bool)
      requires Valid()
      modifies this, sock, sock.sock.rx, sock.sock.buf, sock.sock.buf.buf
      ensures Valid() && Genuine(got) && got.place == old(sock.sock.buf.Where())
      ensures Filled(got.made) ==> |got.chunk| == DEFAULT_CAPACITY - |old(Contents())|
      ensures visits == old(visits) + [Visit(old(sock.View()), got, echoSent)] && got.made != []
      ensures Consumed(old(sock.sock.rx.In()), got.chunk, got.made, sock.sock.rx.In()) && AskedForBytes(got.made)
      ensures Acted(Self(), old(Done()), ActionsOf(StepOn(old(View()), old(sock.View()), got, echoSent).1), Done())
      ensures EchoTold(Self(), old(Done()), Done(), echoSent)
      ensures sock.View() == if old(sock.isSecure) then old(sock.View()) else InitEnd(old(sock.View()), freshIv)
      ensures !old(sock.isSecure) ==> View() == State([], None)
    {
      hide Genuine, ActionsOf, Acted, EchoTold, Grounded, Feasible, ReadStep, HistoryOf, OutcomeOf;
      hide Consumed, AskedForBytes, Filled, InitEnd, Chunks;
      ghost var v0, a0, before := visits, actions, Done();
      ghost var s, e, inbound := View(), sock.View(), sock.sock.rx.In();
      RoomToReceive();
      got, echoSent := ReadSock(freshIv);
      ghost var v := Visit(e, got, echoSent);
      ActedAppends(Self(), before, ActionsOf(StepOn(s, e, got, echoSent).1), Done());
      ReceiveOutcomes(config, sock.crypto, s, e, got);
      BlockedStartsOverExactlyWhen(config, s, got.arrived, echoSent);
      GroundedKept(config, sock.crypto, v0, a0, v);
      ConsumedIsTaken(inbound, got, sock.sock.rx.In());
      Associative(start, Chunks(v0), got.chunk);
      visits := visits + [v];
    }

    lemma RoomToReceive()
      requires Valid()
      ensures |Contents()| < DEFAULT_CAPACITY
    {
    }
  }
}
