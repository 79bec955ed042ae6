/**
 What one call of `read_sock` does to the live bytes and the pending header, as a function,
 and its refinement of a parser that sees the whole stream at once.
 */
module RequestParser {
  import opened Options
  import opened Bits
  import opened Delimiters
  import opened Framing

  datatype Kind = Unspecified | PingKind | HandshakeKind | RequestKind

  datatype Header = Header(kind: Kind, size: int, path: string)

  type Parser = seq<byte> -> Option<Header>

  /** The parts outside this model: the protobuf parser, and the endpoints of a server, if there is one. */
  datatype Config = Config(parse: Parser, server: Option<set<string>>)

  /** How `handle_request` ended. */
  datatype Answer = NoServer | Served | UnknownPath

  function Lookup(config: Config, h: Header): Answer {
    match config.server
    case None => NoServer
    case Some(paths) => if h.path in paths then Served else UnknownPath
  }

  /** Unread plaintext, and the header waiting for its body (`header_parsed` is `header.Some?`). */
  datatype State = State(live: seq<byte>, header: Option<Header>)

  /**
   The outcome of the secure receive: blocked before the handshake (`raw` was received and
   dropped), an error, nothing, or appended plaintext with the reported remaining space.
   */
  datatype Received = Blocked(raw: seq<byte>) | Failed | Nothing | Plain(text: seq<byte>, room: nat)

  /** What happened, in order; `Took` and `Dropped` account for bytes. */
  datatype Entry =
    | Took(frame: seq<byte>)
    | Dropped(bytes: seq<byte>)
    | Echoed(data: seq<byte>, sent: bool)
    | BadHeader
    | Dispatched(header: Header, body: seq<byte>, answer: Answer)
    | Overflowed
    | ReadFailed
    | Rehandshake

  /** The log of one delimited read. */
  function TakeLog(s: seq<byte>): seq<Entry> {
    if NUL in s then [Took(TakeFrame(s, NUL).0)] else []
  }

  /** One call of `read_sock`. */
  function ReadStep(config: Config, s: State, r: Received, echoSent: bool): (State, seq<Entry>) {
    match r
    case Blocked(raw) => (State([], s.header), [Dropped(s.live + raw), Rehandshake])
    case Failed => (s, [ReadFailed])
    case Nothing => (s, [])
    case Plain(text, room) =>
      var live := s.live + text;
      if s.header.None? then AwaitHeader(config, live, room, echoSent) else ReadBody(config, live, s.header.value, room)
  }

  function AwaitHeader(config: Config, live: seq<byte>, room: nat, echoSent: bool): (State, seq<Entry>) {
    var (f, rest) := TakeFrame(live, NUL);
    var log := TakeLog(live);
    if f == [] then
      if room == 0 then (State([], None), log + [Overflowed, Dropped(rest)]) else (State(rest, None), log)
    else
      match config.parse(f)
      case None => (State(rest, None), log + [BadHeader])
      case Some(h) =>
        if h.kind.PingKind? then (State(rest, None), log + [Echoed(f, echoSent)])
        else if h.size == 0 then (State(rest, None), log + [Dispatched(h, [], Lookup(config, h))])
        else
          var (next, more) := ReadBody(config, rest, h, room);
          (next, log + more)
  }

  function ReadBody(config: Config, live: seq<byte>, h: Header, room: nat): (State, seq<Entry>) {
    var (f, rest) := TakeFrame(live, NUL);
    var log := TakeLog(live) + if f == [] then [] else [Dispatched(h, f, Lookup(config, h))];
    if room == 0 then (State([], None), log + [Overflowed, Dropped(rest)])
    else (State(rest, if f == [] then Some(h) else None), log)
  }

  // ---------- the parser of whole streams ----------

  datatype Event = Ping(data: seq<byte>) | Malformed | Request(header: Header, body: seq<byte>)

  /** Headers and bodies alternate, except that pings, empty requests and bad headers have no body. */
  function ParseFrames(parse: Parser, frames: seq<seq<byte>>, pending: Option<Header>): (seq<Event>, Option<Header>)
    decreases |frames|
  {
    if frames == [] then ([], pending)
    else
      var (event, pending') := ParseFrame(parse, frames[0], pending);
      var (events, last) := ParseFrames(parse, frames[1..], pending');
      (event + events, last)
  }

  function ParseFrame(parse: Parser, f: seq<byte>, pending: Option<Header>): (seq<Event>, Option<Header>) {
    if pending.Some? then ([Request(pending.value, f)], None)
    else
      match parse(f)
      case None => ([Malformed], None)
      case Some(h) =>
        if h.kind.PingKind? then ([Ping(f)], None)
        else if h.size == 0 then ([Request(h, [])], None)
        else ([], Some(h))
  }

  lemma {:induction false} ParseConcat(parse: Parser, a: seq<seq<byte>>, b: seq<seq<byte>>, pending: Option<Header>)
    ensures var (first, middle) := ParseFrames(parse, a, pending);
      var (second, last) := ParseFrames(parse, b, middle);
      ParseFrames(parse, a + b, pending) == (first + second, last)
    decreases |a|
  {
    if a == [] {
      assert a + b == b;
      var second := ParseFrames(parse, b, pending).0;
      assert [] + second == second;
    } else {
      assert (a + b)[1..] == a[1..] + b;
      var (event, pending') := ParseFrame(parse, a[0], pending);
      var (first, middle) := ParseFrames(parse, a[1..], pending');
      ParseConcat(parse, a[1..], b, pending');
      Associative(event, first, ParseFrames(parse, b, middle).0);
    }
  }

  // What a peer may want, and the frames it sends for it.

  datatype Demand =
    | Probe(ping: seq<byte>)
    | Bare(head: seq<byte>)
    | Full(head: seq<byte>, body: seq<byte>)
    | Garbage(frame: seq<byte>)

  /** The frames of a demand parse to headers of the right kind. */
  predicate Meant(parse: Parser, d: Demand) {
    match d
    case Probe(f) => parse(f).Some? && parse(f).value.kind.PingKind?
    case Bare(f) => parse(f).Some? && !parse(f).value.kind.PingKind? && parse(f).value.size == 0
    case Full(f, _) => parse(f).Some? && !parse(f).value.kind.PingKind? && parse(f).value.size != 0
    case Garbage(f) => parse(f).None?
  }

  function FramesFor(demands: seq<Demand>): seq<seq<byte>> {
    if demands == [] then []
    else
      (match demands[0]
       case Probe(f) => [f]
       case Bare(f) => [f]
       case Full(f, body) => [f, body]
       case Garbage(f) => [f]) + FramesFor(demands[1..])
  }

  function EventsFor(parse: Parser, demands: seq<Demand>): seq<Event>
    requires forall d :: d in demands ==> Meant(parse, d)
  {
    if demands == [] then []
    else
      assert demands[0] in demands && Meant(parse, demands[0]);
      [match demands[0]
       case Probe(f) => Ping(f)
       case Bare(f) => Request(parse(f).value, [])
       case Full(f, body) => Request(parse(f).value, body)
       case Garbage(f) => Malformed] + EventsFor(parse, demands[1..])
  }

  /** The stream parser gives back exactly the demands: each header with its own body, one event each. */
  lemma {:induction false} DemandsParse(parse: Parser, demands: seq<Demand>)
    requires forall d :: d in demands ==> Meant(parse, d)
    ensures ParseFrames(parse, FramesFor(demands), None) == (EventsFor(parse, demands), None)
  {
    if demands != [] {
      var d, rest := demands[0], FramesFor(demands[1..]);
      DemandsParse(parse, demands[1..]);
      assert Meant(parse, d) by { assert d in demands; }
      if d.Full? {
        assert [d.head, d.body] == [d.head] + [d.body];
        ParseConcat(parse, [d.head], [d.body] + rest, None);
        assert [d.head] + ([d.body] + rest) == [d.head, d.body] + rest;
        ParseOne(parse, d.head, None);
        ParseConcat(parse, [d.body], rest, Some(parse(d.head).value));
        ParseOne(parse, d.body, Some(parse(d.head).value));
        var events := EventsFor(parse, demands);
        assert [] + events == events;
      } else {
        var f := if d.Probe? then d.ping else if d.Bare? then d.head else d.frame;
        ParseConcat(parse, [f], rest, None);
        ParseOne(parse, f, None);
      }
    }
  }

  lemma ParseOne(parse: Parser, f: seq<byte>, pending: Option<Header>)
    ensures ParseFrames(parse, [f], pending) == ParseFrame(parse, f, pending)
  {
    assert [f][1..] == [];
    var event := ParseFrame(parse, f, pending).0;
    assert event + [] == event;
  }

  function EventOf(e: Entry): seq<Event> {
    match e
    case Echoed(data, _) => [Ping(data)]
    case BadHeader => [Malformed]
    case Dispatched(h, body, _) => [Request(h, body)]
    case _ => []
  }

  function EventsOf(log: seq<Entry>): seq<Event> {
    if log == [] then [] else EventOf(log[0]) + EventsOf(log[1..])
  }

  lemma {:induction false} EventsConcat(a: seq<Entry>, b: seq<Entry>)
    ensures EventsOf(a + b) == EventsOf(a) + EventsOf(b)
  {
    if a == [] {
      assert a + b == b;
    } else {
      assert (a + b)[1..] == a[1..] + b;
      EventsConcat(a[1..], b);
      Associative(EventOf(a[0]), EventsOf(a[1..]), EventsOf(b));
    }
  }

  /** The bytes a log accounts for. */
  function BytesOf(log: seq<Entry>): seq<byte> {
    if log == [] then [] else BytesIn(log[0]) + BytesOf(log[1..])
  }

  function BytesIn(e: Entry): seq<byte> {
    match e
    case Took(f) => f + [NUL]
    case Dropped(b) => b
    case _ => []
  }

  lemma Singleton(e: Entry)
    ensures EventsOf([e]) == EventOf(e) && BytesOf([e]) == BytesIn(e)
  {
    assert [e][1..] == [];
    assert EventOf(e) + [] == EventOf(e) && BytesIn(e) + [] == BytesIn(e);
  }

  lemma {:induction false} BytesConcat(a: seq<Entry>, b: seq<Entry>)
    ensures BytesOf(a + b) == BytesOf(a) + BytesOf(b)
  {
    if a == [] {
      assert a + b == b;
    } else {
      assert (a + b)[1..] == a[1..] + b;
      BytesConcat(a[1..], b);
      Associative(BytesIn(a[0]), BytesOf(a[1..]), BytesOf(b));
    }
  }

  function Incoming(r: Received): seq<byte> {
    match r
    case Blocked(raw) => raw
    case Plain(text, _) => text
    case _ => []
  }

  // ---------- one call ----------

  /** The buffer was cleared, which ends a segment of the stream. */
  predicate Cleared(r: Received, log: seq<Entry>) {
    r.Blocked? || Overflowed in log
  }

  /** The bytes a delimited read removes: the frame with its delimiter, or none. */
  function Removed(s: seq<byte>): seq<byte> {
    if NUL in s then TakeFrame(s, NUL).0 + [NUL] else []
  }

  lemma RemovedIsClosed(s: seq<byte>)
    ensures var (f, rest) := TakeFrame(s, NUL);
      && s == Removed(s) + rest && Closed(Removed(s)) && (f != [] ==> Removed(s) != [])
      && NonEmptyFrames(Removed(s)) == Present(f)
      && BytesOf(TakeLog(s)) == Removed(s) && EventsOf(TakeLog(s)) == [] && Overflowed !in TakeLog(s)
  {
    var (f, rest) := TakeFrame(s, NUL);
    if NUL in s {
      FramesAfterTake(s, []);
      OneFrame(f);
      Singleton(Took(f));
    } else {
      NoFrame(s);
      assert [] + s == s;
    }
  }

  /**
   A call explained by the stream parser: it consumed whole frames, `consumed`, reported their
   events, and kept `rest` with the parser's pending header, or dropped `rest` and started over.
   */
  ghost predicate Explains(config: Config, start: Option<Header>, live: seq<byte>, next: State, log: seq<Entry>,
                           consumed: seq<byte>, rest: seq<byte>, pending: Option<Header>) {
    && live == consumed + rest && Closed(consumed)
    && ParseFrames(config.parse, NonEmptyFrames(consumed), start) == (EventsOf(log), pending)
    && (if Overflowed in log then next == State([], None) && BytesOf(log) == consumed + rest
        else next == State(rest, pending) && BytesOf(log) == consumed)
  }

  lemma LogOverflow(log: seq<Entry>, rest: seq<byte>)
    requires Overflowed !in log
    ensures var all := log + [Overflowed, Dropped(rest)];
      Overflowed in all && BytesOf(all) == BytesOf(log) + rest && EventsOf(all) == EventsOf(log)
  {
    assert log + [Overflowed] + [Dropped(rest)] == log + [Overflowed, Dropped(rest)];
    Singleton(Overflowed);
    Singleton(Dropped(rest));
    BytesConcat(log, [Overflowed]);
    EventsConcat(log, [Overflowed]);
    BytesConcat(log + [Overflowed], [Dropped(rest)]);
    EventsConcat(log + [Overflowed], [Dropped(rest)]);
    assert BytesOf(log) + [] == BytesOf(log) && EventsOf(log) + [] == EventsOf(log);
    assert (log + [Overflowed, Dropped(rest)])[|log|] == Overflowed;
  }

  lemma LogEvent(log: seq<Entry>, e: Entry)
    requires Overflowed !in log && !e.Overflowed? && !e.Took? && !e.Dropped? && EventsOf(log) == []
    ensures BytesOf(log + [e]) == BytesOf(log) && EventsOf(log + [e]) == EventOf(e) && Overflowed !in log + [e]
  {
    assert [] + EventOf(e) == EventOf(e) && BytesOf(log) + [] == BytesOf(log);
    Singleton(e);
    BytesConcat(log, [e]);
    EventsConcat(log, [e]);
  }

  lemma ParsePresent(parse: Parser, f: seq<byte>, pending: Option<Header>)
    ensures ParseFrames(parse, Present(f), pending) == if f == [] then ([], pending) else ParseFrame(parse, f, pending)
  {
    assert [f][1..] == [];
    var event := ParseFrame(parse, f, pending).0;
    assert event + [] == event;
  }

  lemma ReadBodyExplained(config: Config, live: seq<byte>, h: Header, room: nat)
    returns (consumed: seq<byte>, rest: seq<byte>, pending: Option<Header>)
    ensures var (next, log) := ReadBody(config, live, h, room);
      Explains(config, Some(h), live, next, log, consumed, rest, pending)
  {
    hide NonEmptyFrames, TakeFrame, EventsOf, BytesOf, ParseFrames, TakeLog, Lookup, Removed, Closed;
    var f := TakeFrame(live, NUL).0;
    rest := TakeFrame(live, NUL).1;
    consumed := Removed(live);
    pending := if f == [] then Some(h) else None;
    RemovedIsClosed(live);
    ParsePresent(config.parse, f, Some(h));
    var log := TakeLog(live);
    if f != [] {
      var e := Dispatched(h, f, Lookup(config, h));
      LogEvent(log, e);
      log := log + [e];
    } else {
      assert log + [] == log;
    }
    assert ParseFrames(config.parse, NonEmptyFrames(consumed), Some(h)) == (EventsOf(log), pending);
    if room == 0 {
      LogOverflow(log, rest);
    }
  }

  lemma AwaitHeaderExplained(config: Config, live: seq<byte>, room: nat, echoSent: bool)
    returns (consumed: seq<byte>, rest: seq<byte>, pending: Option<Header>)
    ensures var (next, log) := AwaitHeader(config, live, room, echoSent);
      Explains(config, None, live, next, log, consumed, rest, pending)
  {
    var f := TakeFrame(live, NUL).0;
    rest := TakeFrame(live, NUL).1;
    consumed, pending := Removed(live), None;
    if f == [] {
      NoHeaderExplained(config, live, room);
    } else {
      var parsed := config.parse(f);
      if parsed.None? {
        OneFrameExplained(config, live, BadHeader);
      } else if parsed.value.kind.PingKind? {
        OneFrameExplained(config, live, Echoed(f, echoSent));
      } else if parsed.value.size == 0 {
        OneFrameExplained(config, live, Dispatched(parsed.value, [], Lookup(config, parsed.value)));
      } else {
        consumed, rest, pending := BodyBehindHeader(config, live, f, rest, parsed.value, room);
      }
    }
  }

  lemma NoHeaderExplained(config: Config, live: seq<byte>, room: nat)
    requires TakeFrame(live, NUL).0 == []
    ensures var rest := TakeFrame(live, NUL).1;
      if room == 0
      then Explains(config, None, live, State([], None), TakeLog(live) + [Overflowed, Dropped(rest)],
                    Removed(live), rest, None)
      else Explains(config, None, live, State(rest, None), TakeLog(live), Removed(live), rest, None)
  {
    RemovedIsClosed(live);
    ParsePresent(config.parse, [], None);
    LogOverflow(TakeLog(live), TakeFrame(live, NUL).1);
  }

  lemma OneFrameExplained(config: Config, live: seq<byte>, e: Entry)
    requires var f := TakeFrame(live, NUL).0;
      f != [] && ParseFrame(config.parse, f, None) == (EventOf(e), None)
    requires !e.Overflowed? && !e.Took? && !e.Dropped?
    ensures var rest := TakeFrame(live, NUL).1;
      Explains(config, None, live, State(rest, None), TakeLog(live) + [e], Removed(live), rest, None)
  {
    RemovedIsClosed(live);
    ParsePresent(config.parse, TakeFrame(live, NUL).0, None);
    LogEvent(TakeLog(live), e);
  }

  lemma BodyBehindHeader(config: Config, live: seq<byte>, f: seq<byte>, tail: seq<byte>, h: Header, room: nat)
    returns (consumed: seq<byte>, rest: seq<byte>, pending: Option<Header>)
    requires TakeFrame(live, NUL) == (f, tail) && f != []
    requires config.parse(f) == Some(h) && !h.kind.PingKind? && h.size != 0
    ensures var (next, log) := ReadBody(config, tail, h, room);
      Explains(config, None, live, next, TakeLog(live) + log, consumed, rest, pending)
  {
    hide ReadBody, TakeLog, EventsOf, BytesOf;
    var (next, log) := ReadBody(config, tail, h, room);
    var more;
    more, rest, pending := ReadBodyExplained(config, tail, h, room);
    RemovedIsClosed(live);
    ParsePresent(config.parse, f, None);
    consumed := Removed(live) + more;
    Associative(Removed(live), more, rest);
    FramesOfConcat(Removed(live), more);
    ParseConcat(config.parse, Present(f), NonEmptyFrames(more), None);
    EventsConcat(TakeLog(live), log);
    BytesConcat(TakeLog(live), log);
    assert Closed(consumed) by {
      assert more != [] ==> consumed[|consumed| - 1] == more[|more| - 1];
      assert more == [] ==> consumed == Removed(live);
    }
    assert Overflowed in TakeLog(live) + log <==> Overflowed in log;
  }

  // ---------- runs ----------

  /** One call: what was received, and whether an echo could be sent. */
  datatype Input = Input(received: Received, echoSent: bool)

  /**
   A stretch of the stream between two clearings of the buffer: the header pending at its
   start, the plaintext appended during it, and the events reported for it.
   */
  datatype Segment = Segment(start: Option<Header>, text: seq<byte>, events: seq<Event>)

  datatype Trace = Trace(state: State, log: seq<Entry>, received: seq<byte>, closed: seq<Segment>, open: Segment)

  const FRESH := Trace(State([], None), [], [], [], Segment(None, [], []))

  function Next(config: Config, t: Trace, i: Input): Trace {
    var (state, log) := ReadStep(config, t.state, i.received, i.echoSent);
    var segment := Segment(t.open.start, t.open.text + Incoming(i.received), t.open.events + EventsOf(log));
    var received := t.received + Incoming(i.received);
    if Cleared(i.received, log)
    then Trace(state, t.log + log, received, t.closed + [segment], Segment(state.header, [], []))
    else Trace(state, t.log + log, received, t.closed, segment)
  }

  function Run(config: Config, t: Trace, inputs: seq<Input>): Trace
    decreases |inputs|
  {
    if inputs == [] then t else Run(config, Next(config, t, inputs[0]), inputs[1..])
  }

  /** The events of a segment are exactly what the stream parser makes of the frames consumed, its first ones. */
  ghost predicate Refines(config: Config, s: Segment) {
    exists consumed, rest :: ParsedUpTo(config, s, consumed, rest)
  }

  ghost predicate ParsedUpTo(config: Config, s: Segment, consumed: seq<byte>, rest: seq<byte>) {
    && s.text == consumed + rest && Closed(consumed)
    && ParseFrames(config.parse, NonEmptyFrames(consumed), s.start).0 == s.events
  }

  lemma ParsedRefines(config: Config, s: Segment, consumed: seq<byte>, rest: seq<byte>)
    requires ParsedUpTo(config, s, consumed, rest)
    ensures Refines(config, s)
  {
  }

  /** So they are a prefix of what it makes of the whole text. */
  lemma RefinedEventsArePrefix(config: Config, s: Segment)
    requires Refines(config, s)
    ensures s.events <= ParseFrames(config.parse, NonEmptyFrames(s.text), s.start).0
  {
    var consumed, rest :| ParsedUpTo(config, s, consumed, rest);
    PrefixOfLonger(config, s.start, consumed, rest);
  }

  /** The open segment up to the live bytes is parsed exactly: same events, same pending header. */
  ghost predicate InStep(config: Config, t: Trace) {
    && |t.state.live| <= |t.open.text|
    && var consumed := t.open.text[..|t.open.text| - |t.state.live|];
       && t.open.text == consumed + t.state.live && Closed(consumed)
       && ParseFrames(config.parse, NonEmptyFrames(consumed), t.open.start) == (t.open.events, t.state.header)
  }

  lemma PrefixOfLonger(config: Config, start: Option<Header>, consumed: seq<byte>, rest: seq<byte>)
    requires Closed(consumed)
    ensures ParseFrames(config.parse, NonEmptyFrames(consumed), start).0
         <= ParseFrames(config.parse, NonEmptyFrames(consumed + rest), start).0
  {
    FramesOfConcat(consumed, rest);
    ParseConcat(config.parse, NonEmptyFrames(consumed), NonEmptyFrames(rest), start);
  }

  /** Every call that is not blocked is explained by the stream parser. */
  lemma CallExplained(config: Config, s: State, r: Received, echoSent: bool)
    returns (consumed: seq<byte>, rest: seq<byte>, pending: Option<Header>)
    requires !r.Blocked?
    ensures var (next, log) := ReadStep(config, s, r, echoSent);
      Explains(config, s.header, s.live + Incoming(r), next, log, consumed, rest, pending)
  {
    if r.Plain? {
      var live := s.live + r.text;
      if s.header.None? {
        consumed, rest, pending := AwaitHeaderExplained(config, live, r.room, echoSent);
      } else {
        consumed, rest, pending := ReadBodyExplained(config, live, s.header.value, r.room);
      }
    } else {
      consumed, rest, pending := [], s.live, s.header;
      assert s.live + [] == s.live == [] + s.live;
      Singleton(ReadFailed);
    }
  }

  /** What the consumed part of the open segment parses to after one more explained call. */
  lemma SegmentGrows(config: Config, t: Trace, incoming: seq<byte>, next: State, log: seq<Entry>,
                     consumed: seq<byte>, rest: seq<byte>, pending: Option<Header>)
    returns (all: seq<byte>)
    requires InStep(config, t)
    requires Explains(config, t.state.header, t.state.live + incoming, next, log, consumed, rest, pending)
    ensures t.open.text + incoming == all + rest && Closed(all)
    ensures ParseFrames(config.parse, NonEmptyFrames(all), t.open.start) == (t.open.events + EventsOf(log), pending)
  {
    var before := t.open.text[..|t.open.text| - |t.state.live|];
    all := before + consumed;
    FramesOfConcat(before, consumed);
    ParseConcat(config.parse, NonEmptyFrames(before), NonEmptyFrames(consumed), t.open.start);
    Associative(before, t.state.live, incoming);
    Associative(before, consumed, rest);
    ClosedConcat(before, consumed);
  }

  lemma ClosedConcat(a: seq<byte>, b: seq<byte>)
    requires Closed(a) && Closed(b)
    ensures Closed(a + b)
  {
    if b == [] {
      assert a + b == a;
    } else {
      assert (a + b)[|a + b| - 1] == b[|b| - 1];
    }
  }

  lemma BlockedLog(bytes: seq<byte>)
    ensures var log := [Dropped(bytes), Rehandshake];
      EventsOf(log) == [] && BytesOf(log) == bytes
  {
    Singleton(Dropped(bytes));
    Singleton(Rehandshake);
    BytesConcat([Dropped(bytes)], [Rehandshake]);
    EventsConcat([Dropped(bytes)], [Rehandshake]);
    assert [Dropped(bytes)] + [Rehandshake] == [Dropped(bytes), Rehandshake];
    assert bytes + [] == bytes;
  }

  ghost predicate Inv(config: Config, t: Trace) {
    InStep(config, t) && forall s :: s in t.closed ==> Refines(config, s)
  }

  lemma InStepAtStart(config: Config, t: Trace)
    requires t.state.live == [] && t.open == Segment(t.state.header, [], [])
    ensures InStep(config, t)
  {
    assert [] == t.open.text[..0] + t.state.live;
    NoFrame([]);
  }

  lemma ExplainedKeepsInv(config: Config, t: Trace, i: Input)
    requires Inv(config, t) && !i.received.Blocked?
    ensures Inv(config, Next(config, t, i))
  {
    hide Refines, ParseFrames, NonEmptyFrames, Closed, EventsOf, BytesOf;
    var u := Next(config, t, i);
    var incoming := Incoming(i.received);
    var (next, log) := ReadStep(config, t.state, i.received, i.echoSent);
    var consumed, rest, pending := CallExplained(config, t.state, i.received, i.echoSent);
    var all := SegmentGrows(config, t, incoming, next, log, consumed, rest, pending);
    if Overflowed in log {
      var segment := Segment(t.open.start, t.open.text + incoming, t.open.events + EventsOf(log));
      ParsedRefines(config, segment, all, rest);
      InStepAtStart(config, u);
    } else {
      assert u.open.text[..|u.open.text| - |rest|] == all;
    }
  }

  lemma BlockedKeepsInv(config: Config, t: Trace, i: Input)
    requires Inv(config, t) && i.received.Blocked?
    ensures Inv(config, Next(config, t, i))
  {
    hide Refines, ParseFrames, NonEmptyFrames, BytesOf, EventsOf, Closed;
    var u := Next(config, t, i);
    var raw := i.received.raw;
    var before := t.open.text[..|t.open.text| - |t.state.live|];
    Associative(before, t.state.live, raw);
    var segment := Segment(t.open.start, t.open.text + raw, t.open.events);
    ParsedRefines(config, segment, before, t.state.live + raw);
    BlockedLog(t.state.live + raw);
    assert t.open.events + [] == t.open.events;
    InStepAtStart(config, u);
  }

  /**
   Over every run and every chunking, each finished segment's events are exactly the stream
   parser's on the frames consumed before the clearing, and the open segment agrees with the
   stream parser on the frames consumed so far, down to the pending header.
   */
  lemma {:induction false} RunRefinesStreamParser(config: Config, t: Trace, inputs: seq<Input>)
    requires Inv(config, t)
    ensures Inv(config, Run(config, t, inputs))
    ensures Refines(config, Run(config, t, inputs).open)
    decreases |inputs|
  {
    if inputs == [] {
      var consumed := t.open.text[..|t.open.text| - |t.state.live|];
      ParsedRefines(config, t.open, consumed, t.state.live);
    } else {
      if inputs[0].received.Blocked? {
        BlockedKeepsInv(config, t, inputs[0]);
      } else {
        ExplainedKeepsInv(config, t, inputs[0]);
      }
      RunRefinesStreamParser(config, Next(config, t, inputs[0]), inputs[1..]);
    }
  }

  lemma FreshIsInStep(config: Config)
    ensures Inv(config, FRESH)
  {
    InStepAtStart(config, FRESH);
  }

  // ---------- conservation ----------

  /** One call neither loses nor invents a byte. */
  lemma CallConservesBytes(config: Config, s: State, r: Received, echoSent: bool)
    ensures var (next, log) := ReadStep(config, s, r, echoSent);
      s.live + Incoming(r) == BytesOf(log) + next.live
  {
    var (next, log) := ReadStep(config, s, r, echoSent);
    if r.Blocked? {
      BlockedLog(s.live + r.raw);
      assert s.live + r.raw + [] == s.live + r.raw;
    } else {
      var consumed, rest, pending := CallExplained(config, s, r, echoSent);
    }
  }

  /** The events of the segments, in order. */
  function SegmentEvents(closed: seq<Segment>): seq<Event> {
    if closed == [] then [] else closed[0].events + SegmentEvents(closed[1..])
  }

  function SegmentText(closed: seq<Segment>): seq<byte> {
    if closed == [] then [] else closed[0].text + SegmentText(closed[1..])
  }

  lemma {:induction false} SegmentsAppend(closed: seq<Segment>, s: Segment)
    ensures SegmentEvents(closed + [s]) == SegmentEvents(closed) + s.events
    ensures SegmentText(closed + [s]) == SegmentText(closed) + s.text
  {
    if closed == [] {
      assert closed + [s] == [s] && [s][1..] == [];
      assert [] + s.events == s.events + [] && [] + s.text == s.text + [];
    } else {
      assert (closed + [s])[1..] == closed[1..] + [s];
      SegmentsAppend(closed[1..], s);
      Associative(closed[0].events, SegmentEvents(closed[1..]), s.events);
      Associative(closed[0].text, SegmentText(closed[1..]), s.text);
    }
  }

  /** The log accounts for every byte received, and the segments for every byte and event. */
  ghost predicate Accounted(t: Trace) {
    && t.received == BytesOf(t.log) + t.state.live
    && t.received == SegmentText(t.closed) + t.open.text
    && EventsOf(t.log) == SegmentEvents(t.closed) + t.open.events
  }

  lemma NextAccounted(config: Config, t: Trace, i: Input)
    requires Accounted(t)
    ensures Accounted(Next(config, t, i))
  {
    var (next, log) := ReadStep(config, t.state, i.received, i.echoSent);
    var incoming := Incoming(i.received);
    LogGrows(t, log, incoming, next.live) by {
      CallConservesBytes(config, t.state, i.received, i.echoSent);
    }
    var segment := Segment(t.open.start, t.open.text + incoming, t.open.events + EventsOf(log));
    SegmentsGrow(t, segment, log, incoming, next.header);
  }

  lemma LogGrows(t: Trace, log: seq<Entry>, incoming: seq<byte>, live: seq<byte>)
    requires t.received == BytesOf(t.log) + t.state.live && t.state.live + incoming == BytesOf(log) + live
    ensures t.received + incoming == BytesOf(t.log + log) + live
  {
    BytesConcat(t.log, log);
    Associative(BytesOf(t.log), t.state.live, incoming);
    Associative(BytesOf(t.log), BytesOf(log), live);
  }

  lemma SegmentsGrow(t: Trace, segment: Segment, log: seq<Entry>, incoming: seq<byte>, header: Option<Header>)
    requires Accounted(t)
    requires segment == Segment(t.open.start, t.open.text + incoming, t.open.events + EventsOf(log))
    ensures t.received + incoming == SegmentText(t.closed) + segment.text == SegmentText(t.closed + [segment]) + []
    ensures EventsOf(t.log + log) == SegmentEvents(t.closed) + segment.events
    ensures EventsOf(t.log + log) == SegmentEvents(t.closed + [segment]) + []
  {
    EventsConcat(t.log, log);
    Associative(SegmentText(t.closed), t.open.text, incoming);
    Associative(SegmentEvents(t.closed), t.open.events, EventsOf(log));
    SegmentsAppend(t.closed, segment);
    assert SegmentText(t.closed + [segment]) + [] == SegmentText(t.closed + [segment]);
    assert SegmentEvents(t.closed + [segment]) + [] == SegmentEvents(t.closed + [segment]);
  }

  /**
   Over every run, the plaintext received equals, in order, the bytes consumed as frames and
   those dropped, followed by the live ones; and the segments partition it and the events.
   */
  lemma {:induction false} RunConservesBytes(config: Config, t: Trace, inputs: seq<Input>)
    requires Accounted(t)
    ensures Accounted(Run(config, t, inputs))
    decreases |inputs|
  {
    if inputs != [] {
      NextAccounted(config, t, inputs[0]);
      RunConservesBytes(config, Next(config, t, inputs[0]), inputs[1..]);
    }
  }

  // ---------- the ring never wedges ----------

  /** What the secure receive guarantees about its outcome, for a ring of this capacity. */
  ghost predicate Feasible(capacity: nat, live: seq<byte>, r: Received) {
    r.Plain? ==> r.text != [] && |live| + |r.text| + r.room <= capacity
  }

  /** Whenever there was room before a call, there is room after it, whatever was received. */
  lemma RoomIsKept(config: Config, capacity: nat, s: State, r: Received, echoSent: bool)
    requires |s.live| < capacity && Feasible(capacity, s.live, r)
    ensures |ReadStep(config, s, r, echoSent).0.live| < capacity
  {
    if r.Plain? {
      var live := s.live + r.text;
      if s.header.None? {
        AwaitHeaderKeepsRoom(config, capacity, live, r.room, echoSent);
      } else {
        ReadBodyKeepsRoom(config, capacity, live, s.header.value, r.room);
      }
    }
  }

  lemma ReadBodyKeepsRoom(config: Config, capacity: nat, live: seq<byte>, h: Header, room: nat)
    requires 0 < capacity && |live| + room <= capacity
    ensures |ReadBody(config, live, h, room).0.live| < capacity
  {
  }

  /** With no room reported, a call either consumed a frame or cleared the ring. */
  lemma AwaitHeaderKeepsRoom(config: Config, capacity: nat, live: seq<byte>, room: nat, echoSent: bool)
    requires 0 < capacity && |live| + room <= capacity
    ensures |AwaitHeader(config, live, room, echoSent).0.live| < capacity
  {
    var (f, rest) := TakeFrame(live, NUL);
    if f != [] {
      assert |rest| < |live|;
    }
  }

  ghost predicate AllFeasible(config: Config, capacity: nat, t: Trace, inputs: seq<Input>)
    decreases |inputs|
  {
    inputs != [] ==>
      && Feasible(capacity, t.state.live, inputs[0].received)
      && AllFeasible(config, capacity, Next(config, t, inputs[0]), inputs[1..])
  }

  /** From an empty ring, no run ends with a full one. */
  lemma {:induction false} NeverWedged(config: Config, capacity: nat, t: Trace, inputs: seq<Input>)
    requires |t.state.live| < capacity && AllFeasible(config, capacity, t, inputs)
    ensures |Run(config, t, inputs).state.live| < capacity
    decreases |inputs|
  {
    if inputs != [] {
      RoomIsKept(config, capacity, t.state, inputs[0].received, inputs[0].echoSent);
      NeverWedged(config, capacity, Next(config, t, inputs[0]), inputs[1..]);
    }
  }

  /** Everything a run keeps: refinement of the stream parser, conservation, and room in the ring. */
  ghost predicate Sound(config: Config, capacity: nat, t: Trace) {
    Inv(config, t) && Accounted(t) && |t.state.live| < capacity
  }

  lemma NextSound(config: Config, capacity: nat, t: Trace, i: Input)
    requires Sound(config, capacity, t) && Feasible(capacity, t.state.live, i.received)
    ensures Sound(config, capacity, Next(config, t, i))
  {
    if i.received.Blocked? {
      BlockedKeepsInv(config, t, i);
    } else {
      ExplainedKeepsInv(config, t, i);
    }
    NextAccounted(config, t, i);
    RoomIsKept(config, capacity, t.state, i.received, i.echoSent);
  }

  // ---------- one message at a time ----------

  /**
   A receive that brings one whole message into an empty ring and leaves room there is handled
   at once and completely: the ring is empty again, nothing is dropped, and the events and
   the pending header are those of the message.
   */
  lemma MessageHandledAtOnce(config: Config, s: State, m: seq<byte>, room: nat, echoSent: bool)
    requires s.live == [] && m != [] && NUL !in m && room > 0
    ensures var (next, log) := ReadStep(config, s, Plain(m + [NUL], room), echoSent);
      var (events, pending) := ParseFrame(config.parse, m, s.header);
      next == State([], pending) && EventsOf(log) == events && Overflowed !in log
  {
    hide EventsOf, BytesOf, NonEmptyFrames, AwaitHeader, ReadBody, TakeFrame, TakeLog, Removed, ParseFrame, Closed;
    var live := m + [NUL];
    assert s.live + (m + [NUL]) == live;
    WholeFrame(m);
    RemovedIsClosed(live);
    if s.header.Some? {
      BodyHandledAtOnce(config, live, m, s.header.value, room);
      PendingBody(config.parse, m, s.header.value);
    } else {
      HeaderHandledAtOnce(config, live, m, room, echoSent);
    }
  }

  lemma WholeFrame(m: seq<byte>)
    requires NUL !in m
    ensures TakeFrame(m + [NUL], NUL) == (m, [])
  {
    var live := m + [NUL];
    assert live[..|m|] == m && live[|m| + 1..] == [];
    IndexOfUnique(live, NUL, |m|);
  }

  lemma PendingBody(parse: Parser, m: seq<byte>, h: Header)
    ensures ParseFrame(parse, m, Some(h)) == ([Request(h, m)], None)
  {
  }

  lemma BodyHandledAtOnce(config: Config, live: seq<byte>, m: seq<byte>, h: Header, room: nat)
    requires TakeFrame(live, NUL) == (m, []) && m != [] && room > 0
    requires EventsOf(TakeLog(live)) == [] && Overflowed !in TakeLog(live)
    ensures var (next, log) := ReadBody(config, live, h, room);
      next == State([], None) && EventsOf(log) == [Request(h, m)] && Overflowed !in log
  {
    hide EventsOf, BytesOf, TakeFrame, TakeLog;
    LogEvent(TakeLog(live), Dispatched(h, m, Lookup(config, h)));
  }

  lemma HeaderHandledAtOnce(config: Config, live: seq<byte>, m: seq<byte>, room: nat, echoSent: bool)
    requires TakeFrame(live, NUL) == (m, []) && m != [] && room > 0
    requires EventsOf(TakeLog(live)) == [] && Overflowed !in TakeLog(live)
    ensures var (next, log) := AwaitHeader(config, live, room, echoSent);
      var (events, pending) := ParseFrame(config.parse, m, None);
      next == State([], pending) && EventsOf(log) == events && Overflowed !in log
  {
    hide EventsOf, BytesOf, TakeLog, Lookup;
    var log := TakeLog(live);
    var parsed := config.parse(m);
    if parsed.None? {
      LogEvent(log, BadHeader);
    } else if parsed.value.kind.PingKind? {
      LogEvent(log, Echoed(m, echoSent));
    } else if parsed.value.size == 0 {
      LogEvent(log, Dispatched(parsed.value, [], Lookup(config, parsed.value)));
    } else {
      NoFrame([]);
      NothingToRead(config, parsed.value, room);
      assert log + [] == log;
    }
  }

  lemma NothingToRead(config: Config, h: Header, room: nat)
    requires room > 0
    ensures ReadBody(config, [], h, room) == (State([], Some(h)), [])
  {
    NoFrame([]);
    var none: seq<Entry> := [];
    assert TakeLog([]) == none && none + none == none;
  }

  // ---------- runs as histories ----------

  lemma {:induction false} RunPush(config: Config, t: Trace, inputs: seq<Input>, i: Input)
    ensures Run(config, t, inputs + [i]) == Next(config, Run(config, t, inputs), i)
    decreases |inputs|
  {
    if inputs == [] {
      assert [] + [i] == [i] && [i][1..] == [];
    } else {
      assert (inputs + [i])[1..] == inputs[1..] + [i];
      RunPush(config, Next(config, t, inputs[0]), inputs[1..], i);
    }
  }

  /** Everything the receives of a run brought. */
  function AllIncoming(inputs: seq<Input>): seq<byte> {
    if inputs == [] then [] else AllIncoming(inputs[..|inputs| - 1]) + Incoming(inputs[|inputs| - 1].received)
  }

  lemma {:induction false} ReceivedIsIncoming(config: Config, inputs: seq<Input>)
    ensures Run(config, FRESH, inputs).received == AllIncoming(inputs)
  {
    if inputs != [] {
      var front, i := inputs[..|inputs| - 1], inputs[|inputs| - 1];
      assert inputs == front + [i];
      RunPush(config, FRESH, front, i);
      ReceivedIsIncoming(config, front);
    }
  }

  // ---------- a header pending across a cleared buffer ----------

  /** A blocked call starts over, except that it keeps a pending header. */
  lemma BlockedStartsOverExactlyWhen(config: Config, s: State, raw: seq<byte>, echoSent: bool)
    ensures ReadStep(config, s, Blocked(raw), echoSent).0 == State([], None) <==> s.header.None?
  {
  }

  /** No blocked call meets a pending header. */
  ghost predicate Orderly(config: Config, t: Trace, inputs: seq<Input>)
    decreases |inputs|
  {
    inputs != [] ==>
      && (inputs[0].received.Blocked? ==> t.state.header.None?)
      && Orderly(config, Next(config, t, inputs[0]), inputs[1..])
  }

  /** Every segment of the stream is parsed from scratch. */
  ghost predicate FromScratch(t: Trace) {
    t.open.start.None? && forall s :: s in t.closed ==> s.start.None?
  }

  /** A call that clears the buffer leaves no header pending, unless it is blocked with one. */
  lemma NextFromScratch(config: Config, t: Trace, i: Input)
    ensures FromScratch(Next(config, t, i)) <==> FromScratch(t) && (i.received.Blocked? ==> t.state.header.None?)
  {
    var (state, log) := ReadStep(config, t.state, i.received, i.echoSent);
    var u := Next(config, t, i);
    if !i.received.Blocked? {
      var consumed, rest, pending := CallExplained(config, t.state, i.received, i.echoSent);
    }
    if Cleared(i.received, log) {
      assert u.closed[|t.closed|].start == t.open.start && u.closed[..|t.closed|] == t.closed;
      assert forall s :: s in t.closed ==> s in u.closed;
    }
  }

  /** Over a run every segment starts from scratch exactly when no blocked call meets a pending header. */
  lemma {:induction false} RunStartsFromScratchExactlyWhen(config: Config, t: Trace, inputs: seq<Input>)
    ensures FromScratch(Run(config, t, inputs)) <==> FromScratch(t) && Orderly(config, t, inputs)
    decreases |inputs|
  {
    if inputs != [] {
      NextFromScratch(config, t, inputs[0]);
      RunStartsFromScratchExactlyWhen(config, Next(config, t, inputs[0]), inputs[1..]);
    }
  }

  /** A header, and a receive on a socket that is no longer secure. */
  lemma PendingHeaderSurvives(config: Config, f: seq<byte>, h: Header) returns (inputs: seq<Input>)
    requires f != [] && NUL !in f && config.parse(f) == Some(h) && !h.kind.PingKind? && h.size != 0
    ensures !FromScratch(Run(config, FRESH, inputs))
  {
    var i, j := Input(Plain(f + [NUL], 1), false), Input(Blocked([]), false);
    var t := Next(config, FRESH, i);
    assert ([] + (f + [NUL]))[..|f|] == f && ([] + (f + [NUL]))[|f| + 1..] == [];
    IndexOfUnique([] + (f + [NUL]), NUL, |f|);
    assert t.state.header == Some(h);
    inputs := [i] + [j];
    assert inputs[1..] == [j] && [j][1..] == [];
    assert !Orderly(config, t, [j]);
    RunStartsFromScratchExactlyWhen(config, FRESH, inputs);
  }

  // ---------- from the sender's messages to the handlers ----------

  /**
   As long as nothing was cleared and the plaintext received is a part of a framed message
   list, the events so far are a prefix of what parsing the messages themselves gives.
   */
  lemma RequestsArriveInOrder(config: Config, inputs: seq<Input>, msgs: seq<seq<byte>>, ahead: seq<byte>)
    requires Framable(msgs)
    requires var t := Run(config, FRESH, inputs);
      t.closed == [] && t.received + ahead == Encode(msgs)
    ensures var t := Run(config, FRESH, inputs);
      && EventsOf(t.log) <= ParseFrames(config.parse, msgs, None).0
      && (ahead == [] && t.state.live == [] ==>
            (EventsOf(t.log), t.state.header) == ParseFrames(config.parse, msgs, None))
  {
    var t := Run(config, FRESH, inputs);
    FreshIsInStep(config);
    RunRefinesStreamParser(config, FRESH, inputs);
    assert Accounted(FRESH);
    RunConservesBytes(config, FRESH, inputs);
    StartKept(config, FRESH, inputs);
    var consumed := t.open.text[..|t.open.text| - |t.state.live|];
    assert [] + t.open.text == t.open.text && [] + t.open.events == t.open.events;
    Associative(consumed, t.state.live, ahead);
    PrefixOfLonger(config, None, consumed, t.state.live + ahead);
    FramingRoundTripsExactlyWhen(msgs);
    if ahead == [] && t.state.live == [] {
      assert consumed + [] == consumed;
    }
  }

  lemma {:induction false} StartKept(config: Config, t: Trace, inputs: seq<Input>)
    ensures t.closed <= Run(config, t, inputs).closed
    ensures Run(config, t, inputs).closed == t.closed ==> Run(config, t, inputs).open.start == t.open.start
    decreases |inputs|
  {
    if inputs != [] {
      StartKept(config, Next(config, t, inputs[0]), inputs[1..]);
    }
  }
}
