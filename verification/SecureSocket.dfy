/**
 A socket with end-to-end encryption: ciphertext is received into the ring, popped off again
 as a suffix, and replaced by plaintext in place.
 */
module SecureSockets {
  import opened Options
  import opened Bits
  import opened Attempts
  import opened RingGeometry
  import opened Receivers
  import opened CircularBuffers
  import opened Framing
  import opened Sockets
  import opened Cryptography
  import RequestParser

  const CONFIRMATION: Bytes := [1, 0]

  /** The outcome of receiving `cipher` when `room` bytes of the ring stay free. */
  function Decrypted(c: Crypto, key: Bytes, iv: Bytes, cipher: Bytes, room: nat): RequestParser.Received {
    if cipher == [] then RequestParser.Nothing
    else
      match c.decrypt(cipher, key, iv)
      case None => RequestParser.Failed
      case Some(plain) => if plain == [] then RequestParser.Failed else RequestParser.Plain(plain, room)
  }

  /** The code `try_recv` returns for an outcome. */
  function Code(r: RequestParser.Received): int {
    match r
    case Blocked(_) => -2
    case Failed => -1
    case Nothing => 0
    case Plain(text, _) => |text|
  }

  /** The live bytes after an outcome. */
  function After(live: Bytes, r: RequestParser.Received): Bytes {
    match r
    case Blocked(_) => []
    case Plain(text, _) => live + text
    case _ => live
  }

  /** A terminated message encrypted by one end is what the other end appends, and its next frame. */
  lemma SentIsReceived(c: Crypto, key: Bytes, iv: Bytes, live: Bytes, m: Bytes, room: nat)
    requires Decrypts(c) && Closed(live) && NUL !in m
    requires c.encrypt(m + [NUL], key, iv).Some? && c.encrypt(m + [NUL], key, iv).value != []
    ensures var r := Decrypted(c, key, iv, c.encrypt(m + [NUL], key, iv).value, room);
      && r == RequestParser.Plain(m + [NUL], room)
      && NonEmptyFrames(After(live, r)) == NonEmptyFrames(live) + Present(m)
  {
    FramesOfConcat(live, m + [NUL]);
    OneFrame(m);
  }

  /** A receive that brings the whole ciphertext of one terminated message. */
  ghost predicate DeliversOne(c: Crypto, key: Bytes, iv: Bytes, m: Bytes, r: RequestParser.Received) {
    var cipher := c.encrypt(m + [NUL], key, iv);
    cipher.Some? && cipher.value != [] && exists room: nat :: r == Decrypted(c, key, iv, cipher.value, room)
  }

  /** Each receive brings nothing or the next ciphertext; some may still be under way. */
  ghost predicate Delivers(c: Crypto, key: Bytes, iv: Bytes, msgs: seq<Bytes>, inputs: seq<RequestParser.Input>)
    decreases |inputs|
  {
    inputs != [] ==>
      || (inputs[0].received.Nothing? && Delivers(c, key, iv, msgs, inputs[1..]))
      || (msgs != [] && DeliversOne(c, key, iv, msgs[0], inputs[0].received)
          && Delivers(c, key, iv, msgs[1..], inputs[1..]))
  }

  lemma {:induction false} DeliveredText(c: Crypto, key: Bytes, iv: Bytes, config: RequestParser.Config,
                                         t: RequestParser.Trace, msgs: seq<Bytes>, inputs: seq<RequestParser.Input>)
    returns (ahead: Bytes)
    requires Decrypts(c) && Delivers(c, key, iv, msgs, inputs)
    ensures RequestParser.Run(config, t, inputs).received + ahead == t.received + Encode(msgs)
    decreases |inputs|
  {
    if inputs == [] {
      return Encode(msgs);
    }
    var next := RequestParser.Next(config, t, inputs[0]);
    if inputs[0].received.Nothing? && Delivers(c, key, iv, msgs, inputs[1..]) {
      assert t.received + [] == t.received;
      ahead := DeliveredText(c, key, iv, config, next, msgs, inputs[1..]);
    } else {
      ahead := DeliveredText(c, key, iv, config, next, msgs[1..], inputs[1..]);
      Associative(t.received, msgs[0] + [NUL], Encode(msgs[1..]));
    }
  }

  /**
   End to end: messages sent encrypted one by one, received whole and decrypted in place, and
   read back by `read_sock`, reach the handlers in order as long as the ring did not overflow;
   all of them, once every message has been delivered and every frame read.
   */
  lemma EncryptedRequestsArriveInOrder(c: Crypto, key: Bytes, iv: Bytes, config: RequestParser.Config,
                                       msgs: seq<Bytes>, inputs: seq<RequestParser.Input>)
    requires Decrypts(c) && Framable(msgs) && Delivers(c, key, iv, msgs, inputs)
    requires RequestParser.Run(config, RequestParser.FRESH, inputs).closed == []
    ensures var t := RequestParser.Run(config, RequestParser.FRESH, inputs);
      var parsed := RequestParser.ParseFrames(config.parse, msgs, None);
      && RequestParser.EventsOf(t.log) <= parsed.0
      && (t.received == Encode(msgs) && t.state.live == [] ==>
            (RequestParser.EventsOf(t.log), t.state.header) == parsed)
  {
    var ahead := DeliveredText(c, key, iv, config, RequestParser.FRESH, msgs, inputs);
    assert [] + Encode(msgs) == Encode(msgs);
    RequestParser.RequestsArriveInOrder(config, inputs, msgs, ahead);
  }

  /** Every receive that brings plaintext leaves room in the ring. */
  ghost predicate RoomLeft(inputs: seq<RequestParser.Input>) {
    forall i :: i in inputs && i.received.Plain? ==> i.received.room > 0
  }

  /**
   With room left by every receive, nothing is ever dropped and nothing waits: after each call
   exactly the messages delivered so far, the first `count`, have been handled.
   */
  lemma {:induction false} EncryptedRequestsAreHandledAtOnce(
      c: Crypto, key: Bytes, iv: Bytes, config: RequestParser.Config,
      t: RequestParser.Trace, msgs: seq<Bytes>, inputs: seq<RequestParser.Input>)
    returns (count: nat)
    requires Decrypts(c) && Framable(msgs) && Delivers(c, key, iv, msgs, inputs) && RoomLeft(inputs)
    requires t.state.live == []
    ensures var u := RequestParser.Run(config, t, inputs);
      && count <= |msgs| && u.received == t.received + Encode(msgs[..count])
      && u.closed == t.closed && u.state.live == []
      && (RequestParser.EventsOf(u.log), u.state.header)
           == Parsed(config, RequestParser.EventsOf(t.log), msgs[..count], t.state.header)
    decreases |inputs|
  {
    hide RequestParser.EventsOf, RequestParser.ParseFrames, RequestParser.ReadStep, Encode;
    if inputs == [] {
      count := 0;
      ParsedNothing(config, RequestParser.EventsOf(t.log), t.state.header);
      EncodeNothing(t.received);
      assert msgs[..0] == [];
      return;
    }
    assert forall i :: i in inputs[1..] ==> i in inputs;
    var r, next := inputs[0].received, RequestParser.Next(config, t, inputs[0]);
    if r.Nothing? && Delivers(c, key, iv, msgs, inputs[1..]) {
      NothingChanges(config, t, inputs[0]);
      count := EncryptedRequestsAreHandledAtOnce(c, key, iv, config, next, msgs, inputs[1..]);
    } else {
      var m, rest := msgs[0], msgs[1..];
      assert m in msgs && inputs[0] in inputs && forall x :: x in rest ==> x in msgs;
      assert r == RequestParser.Plain(m + [NUL], r.room);
      MessageAdvances(config, t, m, inputs[0]);
      var more := EncryptedRequestsAreHandledAtOnce(c, key, iv, config, next, rest, inputs[1..]);
      count := more + 1;
      assert msgs[..count][0] == m && msgs[..count][1..] == rest[..more];
      ParsedFirst(config, RequestParser.EventsOf(t.log), msgs[..count], t.state.header);
      EncodeFirst(t.received, msgs[..count]);
    }
  }

  /** Earlier events, then those of these messages; and the header pending behind them. */
  function Parsed(config: RequestParser.Config, events: seq<RequestParser.Event>, msgs: seq<Bytes>,
                  pending: Option<RequestParser.Header>): (seq<RequestParser.Event>, Option<RequestParser.Header>)
  {
    var (more, last) := RequestParser.ParseFrames(config.parse, msgs, pending);
    (events + more, last)
  }

  lemma ParsedNothing(config: RequestParser.Config, events: seq<RequestParser.Event>,
                      pending: Option<RequestParser.Header>)
    ensures Parsed(config, events, [], pending) == (events, pending)
  {
    assert events + [] == events;
  }

  lemma ParsedFirst(config: RequestParser.Config, events: seq<RequestParser.Event>, msgs: seq<Bytes>,
                    pending: Option<RequestParser.Header>)
    requires msgs != []
    ensures var (first, next) := RequestParser.ParseFrame(config.parse, msgs[0], pending);
      Parsed(config, events, msgs, pending) == Parsed(config, events + first, msgs[1..], next)
  {
    var (first, next) := RequestParser.ParseFrame(config.parse, msgs[0], pending);
    Associative(events, first, RequestParser.ParseFrames(config.parse, msgs[1..], next).0);
  }

  lemma EncodeNothing(received: Bytes)
    ensures received + Encode([]) == received
  {
  }

  lemma EncodeFirst(received: Bytes, msgs: seq<Bytes>)
    requires msgs != []
    ensures received + Encode(msgs) == received + (msgs[0] + [NUL]) + Encode(msgs[1..])
  {
    Associative(received, msgs[0] + [NUL], Encode(msgs[1..]));
  }

  lemma NothingChanges(config: RequestParser.Config, t: RequestParser.Trace, i: RequestParser.Input)
    requires i.received.Nothing?
    ensures var u := RequestParser.Next(config, t, i);
      && u.state == t.state && u.closed == t.closed && u.received == t.received
      && RequestParser.EventsOf(u.log) == RequestParser.EventsOf(t.log)
  {
    assert t.received + [] == t.received && t.log + [] == t.log;
  }

  lemma MessageAdvances(config: RequestParser.Config, t: RequestParser.Trace, m: Bytes, i: RequestParser.Input)
    requires t.state.live == [] && m != [] && NUL !in m
    requires i.received.Plain? && i.received.text == m + [NUL] && i.received.room > 0
    ensures var u := RequestParser.Next(config, t, i);
      var (events, pending) := RequestParser.ParseFrame(config.parse, m, t.state.header);
      && u.state == RequestParser.State([], pending) && u.closed == t.closed && u.received == t.received + (m + [NUL])
      && RequestParser.EventsOf(u.log) == RequestParser.EventsOf(t.log) + events
  {
    hide RequestParser.ReadStep, RequestParser.EventsOf, RequestParser.ParseFrame;
    RequestParser.MessageHandledAtOnce(config, t.state, m, i.received.room, i.echoSent);
    RequestParser.EventsConcat(t.log, RequestParser.ReadStep(config, t.state, i.received, i.echoSent).1);
  }

  /**
   What one receive brought: where it found the ring, the bytes taken off the stream, the
   bytes that became readable, the runs of the callback, and the space left.
   */
  datatype Reception = Reception(place: Place, chunk: Bytes, arrived: Bytes, made: seq<Call>, room: nat)

  /** The readable bytes are what the runs left in the ring; the bytes taken, in order, if they left no gap. */
  ghost predicate Genuine(r: Reception) {
    && |r.arrived| == |r.chunk| == Total(r.made) && (Seamless(r.made) ==> r.arrived == r.chunk)
    && LandedAs(r.place, r.chunk, r.made, r.arrived)
  }

  /** What the secure receive makes of it. */
  function OutcomeOf(c: Crypto, e: End, r: Reception): RequestParser.Received {
    if e.isSecure then Decrypted(c, e.key, e.iv, r.arrived, r.room) else RequestParser.Blocked(r.arrived)
  }

  /**
   What a handshake step works on: nothing if nothing arrived, and otherwise the whole ring,
   old contents first, less its last byte, which leaves the ring empty.
   */
  ghost predicate MessageIn(data: Option<Bytes>, live: Bytes, r: Reception, after: Bytes) {
    if data.None? then r.chunk == [] && after == live
    else r.chunk != [] && r.arrived != [] && after == [] && data.value == (live + r.arrived)[..|live| + |r.arrived| - 1]
  }

  /** The ciphertext one end makes of a text, if it has a key. */
  function Sealed(c: Crypto, e: End, text: Bytes): Option<Bytes> {
    if e.isSecure then c.encrypt(text, e.key, e.iv) else None
  }

  /** A text sealed by one end is what an end with the same key and vector makes of the whole ciphertext. */
  lemma SealedIsOpened(c: Crypto, sender: End, receiver: End, text: Bytes, got: Reception)
    requires Decrypts(c) && sender.isSecure && receiver.isSecure && text != []
    requires sender.key == receiver.key && sender.iv == receiver.iv
    requires Sealed(c, sender, text) == Some(got.arrived) && got.arrived != []
    ensures c.decrypt(got.arrived, receiver.key, receiver.iv) == Some(text)
    ensures OutcomeOf(c, receiver, got) == RequestParser.Plain(text, got.room)
  {
  }

  /** The outcome of a receive, case by case: its code, and the contents it leaves. */
  lemma OutcomeIs(c: Crypto, e: End, got: Reception, live: Bytes)
    ensures var (code, after) := (Code(OutcomeOf(c, e, got)), After(live, OutcomeOf(c, e, got)));
      var plain := c.decrypt(got.arrived, e.key, e.iv);
      if !e.isSecure then code == -2 && after == []
      else if got.arrived == [] then code == 0 && after == live
      else if plain.None? || plain.value == [] then code == -1 && after == live
      else code == |plain.value| && after == live + plain.value
  {
  }

  /** The first frame confirms exactly when the first byte is 1 and a terminator follows somewhere. */
  lemma ConfirmingFrame(s: Bytes)
    ensures var f := TakeFrame(s, NUL).0;
      f != [] && f[0] == 1 <==> s != [] && s[0] == 1 && NUL in s
  {
    TakeFrameSplits(s, NUL);
  }

  class SecureSocket {
    const sock: Socket
    const crypto: Crypto
    const dhKey: Bytes
    var dhSecret: Bytes
    var sharedSecret: Bytes
    var key: Bytes
    var iv: Bytes
    var isSecure: bool

    ghost predicate Valid()
      reads this, sock, sock.buf
    {
      sock.Valid() && Shrinks(crypto)
    }

    ghost function Contents(): (s: seq<byte>)
      requires Valid()
      reads this, sock, sock.buf, sock.buf.buf
      ensures |s| <= DEFAULT_CAPACITY
    {
      sock.Contents()
    }

    ghost function View(): End
      reads this
    {
      End(isSecure, sharedSecret, key, iv, dhKey, dhSecret)
    }

    constructor (rx: Receiver, crypto: Crypto, dhKey: Bytes)
      requires Shrinks(crypto)
      ensures Valid() && Contents() == [] && View() == End(false, [], [], [], dhKey, [])
      ensures fresh(sock) && fresh(sock.buf) && fresh(sock.buf.buf) && sock.rx == rx && this.crypto == crypto
    {
      this.crypto, this.dhKey := crypto, dhKey;
      dhSecret, sharedSecret, key, iv, isSecure := [], [], [], [], false;
      sock := new Socket(rx);
    }

    /**
     Receive and decrypt in place. What is popped is exactly what arrived; on success the
     plaintext replaces it, on failure the old contents remain. The reported space was left
     while the longer ciphertext was stored, so it never exceeds the real one.
     */
    method TryRecv() returns (nbytes: int, space: nat, ghost got: Reception)
      requires Valid()
      modifies sock.buf, sock.buf.buf
      modifies sock.rx`pending, sock.rx`taken, sock.rx`calls, sock.rx`dirty, sock.rx`fd, sock.rx`listening
      ensures Valid() && Genuine(got) && got.place == old(sock.buf.Where()) && got.room == space
      ensures Consumed(old(sock.rx.In()), got.chunk, got.made, sock.rx.In()) && AskedForBytes(got.made)
      ensures got.made == [] <==> |old(Contents())| == DEFAULT_CAPACITY
      ensures nbytes == Code(OutcomeOf(crypto, View(), got))
      ensures Contents() == After(old(Contents()), OutcomeOf(crypto, View(), got))
      ensures RequestParser.Feasible(DEFAULT_CAPACITY, old(Contents()), OutcomeOf(crypto, View(), got))
      ensures if isSecure then space == DEFAULT_CAPACITY - |old(Contents())| - |got.arrived| else space == 0
      ensures Filled(got.made) ==> |got.chunk| == DEFAULT_CAPACITY - |old(Contents())|
      ensures
        if !isSecure then nbytes == -2 && Contents() == []
        else if got.arrived == [] then nbytes == 0 && Contents() == old(Contents())
        else
          var plain := crypto.decrypt(got.arrived, key, iv);
          if plain.None? || plain.value == [] then nbytes == -1 && Contents() == old(Contents())
          else nbytes == |plain.value| && Contents() == old(Contents()) + plain.value
    {
      hide Seamless, HungUp, Total, Consumed, LandedAs, Filled, Planned;
      ghost var live, place := Contents(), sock.buf.Where();
      var n;
      ghost var arrived, chunk, made;
      if !isSecure {
        n, space, arrived, chunk, made := sock.TryRecv(0);
        sock.ClearBuffer();
        return -2, 0, Reception(place, chunk, arrived, made, 0);
      }

      var offset := sock.buf.Size();
      n, space, arrived, chunk, made := sock.TryRecv(0);
      got := Reception(place, chunk, arrived, made, space);
      if n < 1 {
        return n, space, got;
      }
      var cipherText := sock.buf.ReadFrom(offset);
      assert cipherText == arrived && Contents() == live;
      var plainText := crypto.decrypt(cipherText, key, iv);
      if plainText.None? {
        return -1, space, got;
      }
      var written := sock.buf.Write(plainText.value);
      assert plainText.value[..written] == plainText.value;
      if written == 0 {
        return -1, space, got;
      }
      nbytes := |plainText.value|;
    }

    /** What an attempt to post a text did: nothing without a key or a ciphertext, else what a plain send does. */
    ghost predicate Posted(before: Outbound, text: Bytes, ok: bool)
      reads this, sock.rx
    {
      var cipher := Sealed(crypto, View(), text);
      if cipher.None? then !ok && sock.rx.Out() == before
      else Transmitted(sock.rx.Connected(), before, cipher.value, sock.rx.Out(), ok)
    }

    /** Encrypt and send; nothing is sent before the handshake. */
    method TrySend(data: Bytes, terminate: bool) returns (ok: bool)
      modifies sock.rx`sent, sock.rx`refused, sock.rx`done
      ensures Posted(old(sock.rx.Out()), if terminate then data + [NUL] else data, ok)
      ensures var cipher := crypto.encrypt(if terminate then data + [NUL] else data, key, iv);
        if !isSecure || cipher.None? || sock.rx.fd == 0 || sock.rx.listening
        then !ok && sock.rx.Out() == old(sock.rx.Out())
        else
          && sock.rx.refused == old(sock.rx.refused) + (if ok then 0 else 1)
          && (ok ==> sock.rx.sent == old(sock.rx.sent) + cipher.value)
      ensures ok && Decrypts(crypto) ==>
        && old(sock.rx.sent) <= sock.rx.sent
        && crypto.decrypt(sock.rx.sent[|old(sock.rx.sent)|..], key, iv)
             == Some(if terminate then data + [NUL] else data)
    {
      if !isSecure {
        return false;
      }
      var cipherText := crypto.encrypt(if terminate then data + [NUL] else data, key, iv);
      if cipherText.None? {
        return false;
      }
      ok := sock.TrySend(cipherText.value);
      assert ok ==> sock.rx.sent[|old(sock.rx.sent)|..] == cipherText.value;
    }

    /** What was posted here, received whole by an end with the same key and vector, is the text. */
    lemma PostedIsReceived(before: Outbound, text: Bytes, receiver: End, got: Reception)
      requires Posted(before, text, true) && Decrypts(crypto) && text != []
      requires receiver.isSecure && receiver.key == key && receiver.iv == iv
      requires sock.rx.sent == before.sent + got.arrived && got.arrived != []
      ensures OutcomeOf(crypto, receiver, got) == RequestParser.Plain(text, got.room)
    {
      var cipher := Sealed(crypto, View(), text).value;
      assert sock.rx.sent[|before.sent|..] == got.arrived == cipher;
      SealedIsOpened(crypto, View(), receiver, text, got);
    }

    method HandshakeInit(rand: Bytes) returns (ok: bool)
      modifies this`isSecure, this`sharedSecret, this`key, this`iv, sock.rx`sent, sock.rx`refused, sock.rx`done
      ensures View() == InitEnd(old(View()), rand)
      ensures !isSecure && sharedSecret == [] && key == [] && iv == rand
      ensures ok ==> sock.rx.sent == old(sock.rx.sent) + crypto.hostMessage(crypto.publicKey(dhKey), rand) + [NUL]
      ensures Said(old(sock.rx.Out()), InitMessage(crypto, View()), ok)
    {
      isSecure := false;
      sharedSecret := [];
      key := [];
      iv := rand;
      ok := sock.TrySendText(crypto.hostMessage(crypto.publicKey(dhKey), iv), true);
    }

    /** An attempt to send a message and its terminator in the clear. */
    ghost predicate Said(before: Outbound, m: Bytes, ok: bool)
      reads this, sock.rx
    {
      Transmitted(sock.rx.Connected(), before, m + [NUL], sock.rx.Out(), ok)
    }

    /** Receive once and empty the ring: what was in it without its last byte, if anything arrived. */
    method ReceiveMessage() returns (data: Option<Bytes>, ghost got: Reception)
      requires Valid()
      modifies sock.buf, sock.buf.buf
      modifies sock.rx`pending, sock.rx`taken, sock.rx`calls, sock.rx`dirty, sock.rx`fd, sock.rx`listening
      ensures Valid() && Genuine(got) && got.place == old(sock.buf.Where())
      ensures Consumed(old(sock.rx.In()), got.chunk, got.made, sock.rx.In())
      ensures MessageIn(data, old(Contents()), got, Contents())
      ensures
        if got.arrived == [] then data.None? && Contents() == old(Contents())
        else
          && data.Some? && Contents() == [] && |data.value| + 1 == |old(Contents())| + |got.arrived|
          && data.value <= old(Contents()) + got.arrived
      ensures Filled(got.made) ==> |got.chunk| == DEFAULT_CAPACITY - |old(Contents())|
    {
      hide Seamless, HungUp, Total, Consumed, LandedAs, Filled, Planned;
      ghost var live, place := Contents(), sock.buf.Where();
      var nbytes, space;
      ghost var landed, chunk, made;
      nbytes, space, landed, chunk, made := sock.TryRecv(0);
      got := Reception(place, chunk, landed, made, space);
      if nbytes < 1 {
        return None, got;
      }
      var bytes := sock.FlushBuffer();
      data := Some(bytes[..|bytes| - 1]);
    }

    method HandshakeAccept() returns (ok: bool, ghost data: Option<Bytes>, ghost got: Reception)
      requires Valid()
      modifies this`isSecure, this`sharedSecret, this`key, this`iv, this`dhSecret, sock.rx, sock.buf, sock.buf.buf
      ensures Valid() && Genuine(got) && got.place == old(sock.buf.Where())
      ensures Consumed(old(sock.rx.In()), got.chunk, got.made, sock.rx.In())
      ensures MessageIn(data, old(Contents()), got, Contents())
      ensures Filled(got.made) ==> |got.chunk| == DEFAULT_CAPACITY - |old(Contents())|
      ensures !isSecure && sharedSecret == [] && key == []
      ensures
        if data.None? || crypto.parseHost(data.value).None?
        then !ok && iv == old(iv) && dhSecret == old(dhSecret) && sock.rx.Out() == old(sock.rx.Out())
        else
          var (hostKey, hostIv) := crypto.parseHost(data.value).value;
          var secret := crypto.derive(dhKey, hostKey);
          && iv == hostIv
          && (if secret.None? then !ok && dhSecret == old(dhSecret) && sock.rx.Out() == old(sock.rx.Out())
              else
                && dhSecret == secret.value
                && (ok ==> sock.rx.sent == old(sock.rx.sent) + crypto.peerMessage(crypto.publicKey(dhKey)) + [NUL]))
      ensures View() == AcceptEnd(crypto, old(View()), data).0
      ensures var reply := AcceptEnd(crypto, old(View()), data).1;
        if reply.Some? then Said(old(sock.rx.Out()), reply.value, ok) else !ok && sock.rx.Out() == old(sock.rx.Out())
    {
      hide Consumed, Genuine, MessageIn, Transmitted, Filled;
      isSecure := false;
      sharedSecret := [];
      key := [];
      var message;
      message, got := ReceiveMessage();
      data := message;
      if message.None? {
        return false, data, got;
      }
      var parsed := crypto.parseHost(message.value);
      if parsed.None? {
        return false, data, got;
      }
      iv := parsed.value.1;
      var secret := crypto.derive(dhKey, parsed.value.0);
      if secret.None? {
        return false, data, got;
      }
      dhSecret := secret.value;
      var reply := crypto.peerMessage(crypto.publicKey(dhKey));
      ok := sock.TrySendText(reply, true);
    }

    method HandshakeFinal() returns (ok: bool, ghost data: Option<Bytes>, ghost got: Reception)
      requires Valid()
      modifies this`isSecure, this`sharedSecret, this`key, this`dhSecret, sock.rx, sock.buf, sock.buf.buf
      ensures Valid() && Genuine(got) && got.place == old(sock.buf.Where())
      ensures Consumed(old(sock.rx.In()), got.chunk, got.made, sock.rx.In())
      ensures MessageIn(data, old(Contents()), got, Contents())
      ensures Filled(got.made) ==> |got.chunk| == DEFAULT_CAPACITY - |old(Contents())|
      ensures
        if data.None? || crypto.parsePeer(data.value).None?
           || crypto.derive(dhKey, crypto.parsePeer(data.value).value).None?
        then !ok && View() == old(View()) && sock.rx.Out() == old(sock.rx.Out())
        else
          && Some(sharedSecret) == Some(dhSecret) == crypto.derive(dhKey, crypto.parsePeer(data.value).value)
          && (if crypto.hash(sharedSecret).None?
              then !ok && key == old(key) && isSecure == old(isSecure) && sock.rx.Out() == old(sock.rx.Out())
              else
                && isSecure && crypto.hash(sharedSecret) == Some(key)
                && (ok ==> sock.rx.sent == old(sock.rx.sent) + [1, 0]))
      ensures View() == FinalEnd(crypto, old(View()), data).0
      ensures
        if FinalEnd(crypto, old(View()), data).1
        then Transmitted(sock.rx.Connected(), old(sock.rx.Out()), CONFIRMATION, sock.rx.Out(), ok)
        else !ok && sock.rx.Out() == old(sock.rx.Out())
    {
      hide Consumed, Genuine, MessageIn, Transmitted, Filled;
      var message;
      message, got := ReceiveMessage();
      data := message;
      if message.None? {
        return false, data, got;
      }
      var pk := crypto.parsePeer(message.value);
      if pk.None? {
        return false, data, got;
      }
      var secret := crypto.derive(dhKey, pk.value);
      if secret.None? {
        return false, data, got;
      }
      dhSecret := secret.value;
      sharedSecret := dhSecret;
      var secretHash := crypto.hash(sharedSecret);
      if secretHash.None? {
        return false, data, got;
      }
      key := secretHash.value;
      isSecure := true;
      ok := sock.TrySend([1, 0]);
    }

    /**
     At most two bytes are received, so what follows the confirmation stays in the stream. An
     empty first frame, on which the program's `front` is undefined, is taken as a refusal.
     */
    method HandshakeConfirm() returns (ok: bool, ghost frame: Option<Bytes>, ghost got: Reception)
      requires Valid()
      modifies this`isSecure, this`sharedSecret, this`key, sock.rx, sock.buf, sock.buf.buf
      ensures Valid() && Genuine(got) && got.place == old(sock.buf.Where())
      ensures Consumed(old(sock.rx.In()), got.chunk, got.made, sock.rx.In())
      ensures |got.chunk| <= 2 && (frame.Some? <==> |got.chunk| == 2) && sock.rx.Out() == old(sock.rx.Out())
      ensures Filled(got.made) ==> |got.chunk| == Min(2, DEFAULT_CAPACITY - |old(Contents())|)
      ensures var s := old(Contents()) + got.arrived;
        if |got.chunk| == 2 && s != [] && s[0] == 1 && NUL in s
        then
          && sharedSecret == dhSecret && (ok <==> crypto.hash(dhSecret).Some?)
          && (if ok then isSecure && Some(key) == crypto.hash(dhSecret)
              else isSecure == old(isSecure) && key == old(key))
        else !ok && View() == old(View())
      ensures (View(), ok) == ConfirmEnd(crypto, old(View()), frame)
      ensures
        if frame.Some? then (frame.value, Contents()) == TakeFrame(old(Contents()) + got.arrived, NUL)
        else Contents() == old(Contents()) + got.arrived
    {
      hide Seamless, HungUp, Total, Consumed, LandedAs, TakeFrame, Filled, Planned;
      hide AskedForBytes, FirstFrame;
      ghost var place := sock.buf.Where();
      var nbytes, space;
      ghost var landed, chunk, made;
      nbytes, space, landed, chunk, made := sock.TryRecv(2);
      got := Reception(place, chunk, landed, made, space);
      if nbytes != 2 {
        return false, None, got;
      }
      ghost var s := sock.Contents();
      var res := sock.ReadBuffer(0);
      frame := Some(res);
      ConfirmingFrame(s);
      if |res| == 0 || res[0] != 1 {
        return false, frame, got;
      }
      sharedSecret := dhSecret;
      var secretHash := crypto.hash(sharedSecret);
      if secretHash.None? {
        return false, frame, got;
      }
      key := secretHash.value;
      isSecure := true;
      ok := true;
    }
  }
}
