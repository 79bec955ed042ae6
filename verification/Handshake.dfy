/**
 One key exchange between a host and a peer over two reliable channels that deliver whole
 messages in order. Any receive may find nothing yet, any send may fail, any library call
 may fail; a step that fails after consuming its message ends that side's attempt.
 */
module Handshake {
  import opened Options
  import opened Bits
  import opened Cryptography
  import opened Framing
  import SecureSockets

  datatype HostStage = HostStart | HostWaiting | HostDone | HostFailed
  datatype PeerStage = PeerStart | PeerWaiting | PeerDone | PeerFailed

  /** Both ends, their progress, and the terminated messages under way. */
  datatype State = State(
    host: End, hostStage: HostStage, peer: End, peerStage: PeerStage, toPeer: seq<Bytes>, toHost: seq<Bytes>)

  /** A step of one side: whether its message has arrived, and whether its own send succeeds. */
  datatype Step =
    | HostInit(rand: Bytes, sent: bool)
    | PeerAccept(arrived: bool, sent: bool)
    | HostFinal(arrived: bool, sent: bool)
    | PeerConfirm(arrived: bool)

  ghost predicate Enabled(s: State, step: Step) {
    match step
    case HostInit(_, _) => s.hostStage.HostStart?
    case PeerAccept(arrived, _) => s.peerStage.PeerStart? && (arrived ==> s.toPeer != [])
    case HostFinal(arrived, _) => s.hostStage.HostWaiting? && (arrived ==> s.toHost != [])
    case PeerConfirm(arrived) => s.peerStage.PeerWaiting? && (arrived ==> s.toPeer != [])
  }

  /** The data a step makes of a whole message: everything but the terminator. */
  function Payload(channel: seq<Bytes>, arrived: bool): Option<Bytes> {
    if arrived && channel != [] && channel[0] != [] then Some(channel[0][..|channel[0]| - 1]) else None
  }

  function Rest(channel: seq<Bytes>, arrived: bool): seq<Bytes> {
    if arrived && channel != [] then channel[1..] else channel
  }

  function Apply(c: Crypto, s: State, step: Step): State {
    match step
    case HostInit(rand, sent) =>
      var host := InitEnd(s.host, rand);
      if sent then s.(host := host, hostStage := HostWaiting, toPeer := s.toPeer + [InitMessage(c, host) + [NUL]])
      else s.(host := host, hostStage := HostFailed)
    case PeerAccept(arrived, sent) =>
      var (peer, reply) := AcceptEnd(c, s.peer, Payload(s.toPeer, arrived));
      var s1 := s.(peer := peer, toPeer := Rest(s.toPeer, arrived));
      if !arrived then s1
      else if reply.Some? && sent then s1.(peerStage := PeerWaiting, toHost := s.toHost + [reply.value + [NUL]])
      else s1.(peerStage := PeerFailed)
    case HostFinal(arrived, sent) =>
      var (host, confirm) := FinalEnd(c, s.host, Payload(s.toHost, arrived));
      var s1 := s.(host := host, toHost := Rest(s.toHost, arrived));
      if !arrived then s1
      else if confirm && sent then s1.(hostStage := HostDone, toPeer := s.toPeer + [SecureSockets.CONFIRMATION])
      else s1.(hostStage := HostFailed)
    case PeerConfirm(arrived) =>
      var frame :=
        if arrived && s.toPeer != [] && |s.toPeer[0]| == 2 then Some(TakeFrame(s.toPeer[0], NUL).0) else None;
      var (peer, ok) := ConfirmEnd(c, s.peer, frame);
      var s1 := s.(peer := peer, toPeer := Rest(s.toPeer, arrived));
      if !arrived then s1 else s1.(peerStage := if ok then PeerDone else PeerFailed)
  }

  ghost predicate Reaches(c: Crypto, s: State, steps: seq<Step>, t: State)
    decreases |steps|
  {
    if steps == [] then s == t else Enabled(s, steps[0]) && Reaches(c, Apply(c, s, steps[0]), steps[1..], t)
  }

  ghost predicate Initial(s: State) {
    && s.hostStage.HostStart? && s.peerStage.PeerStart?
    && !s.host.isSecure && !s.peer.isSecure && s.toPeer == [] && s.toHost == []
  }

  /** The secret of this pair of private keys, as the given end derives it. */
  function HostSecret(c: Crypto, s: State): Option<Bytes> {
    c.derive(s.host.dhKey, c.publicKey(s.peer.dhKey))
  }

  function PeerSecret(c: Crypto, s: State): Option<Bytes> {
    c.derive(s.peer.dhKey, c.publicKey(s.host.dhKey))
  }

  ghost predicate Inv(c: Crypto, s: State) {
    && (s.host.isSecure ==>
          && (s.hostStage.HostDone? || s.hostStage.HostFailed?)
          && HostSecret(c, s) == Some(s.host.secret) && c.hash(s.host.secret) == Some(s.host.key))
    && (s.peer.isSecure ==>
          && s.peerStage.PeerDone? && s.host.isSecure && s.peer.secret == s.peer.dhSecret
          && c.hash(s.peer.secret) == Some(s.peer.key))
    && (s.peerStage.PeerWaiting? || s.peerStage.PeerDone? ==>
          s.peer.iv == s.host.iv && PeerSecret(c, s) == Some(s.peer.dhSecret))
    && (s.hostStage.HostStart? ==> s.toPeer == [] && s.toHost == [] && s.peerStage.PeerStart?)
    && (s.peerStage.PeerStart? ==> s.toHost == [])
    && (s.peerStage.PeerStart? && s.toPeer != [] ==>
          s.toPeer == [InitMessage(c, s.host) + [NUL]] && s.hostStage.HostWaiting?)
    && (!s.peerStage.PeerStart? && s.toPeer != [] ==>
          s.toPeer == [SecureSockets.CONFIRMATION] && s.host.isSecure && s.hostStage.HostDone?)
    && (s.toHost != [] ==> s.toHost == [c.peerMessage(c.publicKey(s.peer.dhKey)) + [NUL]] && s.hostStage.HostWaiting?)
  }

  lemma WholePayload(m: Bytes)
    ensures Payload([m + [NUL]], true) == Some(m) && Rest([m + [NUL]], true) == []
  {
    assert (m + [NUL])[..|m + [NUL]| - 1] == m;
  }

  /** A whole message that arrives in an empty ring is the payload a step of the exchange works on. */
  lemma MessageIsPayload(m: Bytes, data: Option<Bytes>, got: SecureSockets.Reception, after: Bytes)
    requires SecureSockets.Genuine(got) && got.arrived == m && m != []
    requires SecureSockets.MessageIn(data, [], got, after)
    ensures data == Payload([m], true) && after == []
  {
    assert [] + m == m;
  }

  lemma InvKept(c: Crypto, s: State, step: Step)
    requires Commutes(c) && MessagesParse(c)
    requires Inv(c, s) && Enabled(s, step)
    ensures Inv(c, Apply(c, s, step))
  {
    match step
    case HostInit(_, _) =>
    case PeerAccept(arrived, sent) =>
      if arrived {
        WholePayload(InitMessage(c, s.host));
      }
    case HostFinal(arrived, sent) =>
      if arrived {
        WholePayload(c.peerMessage(c.publicKey(s.peer.dhKey)));
      }
    case PeerConfirm(arrived) =>
  }

  /**
   Over every run of one exchange: whenever both ends are secure they hold the same key, the
   same secret and the same vector; a secure peer implies a secure host; and a secure end's
   key is the hash of the secret of exactly these two key pairs, never unset.
   */
  lemma {:induction false} HandshakeAgreement(c: Crypto, s: State, steps: seq<Step>, t: State)
    requires Commutes(c) && MessagesParse(c)
    requires Inv(c, s) && Reaches(c, s, steps, t)
    ensures Inv(c, t)
    ensures t.peer.isSecure ==> t.host.isSecure
    ensures t.host.isSecure && t.peer.isSecure ==>
      t.host.key == t.peer.key && t.host.secret == t.peer.secret && t.host.iv == t.peer.iv
    ensures t.host.isSecure ==> HostSecret(c, t).Some? && c.hash(HostSecret(c, t).value) == Some(t.host.key)
    ensures t.peer.isSecure ==> PeerSecret(c, t).Some? && c.hash(PeerSecret(c, t).value) == Some(t.peer.key)
    decreases |steps|
  {
    if steps != [] {
      InvKept(c, s, steps[0]);
      HandshakeAgreement(c, Apply(c, s, steps[0]), steps[1..], t);
    }
  }

  lemma InitialInv(c: Crypto, s: State)
    requires Initial(s)
    ensures Inv(c, s)
  {
  }

  /** The derived secret exists and can be hashed: what the libraries must do for this pair of keys. */
  predicate Possible(c: Crypto, s: State) {
    HostSecret(c, s).Some? && c.hash(HostSecret(c, s).value).Some?
  }

  predicate BothSecure(t: State) {
    t.host.isSecure && t.peer.isSecure
  }

  /** Some run from `s` secures both ends. */
  ghost predicate CanSecure(c: Crypto, s: State) {
    exists steps, t :: Reaches(c, s, steps, t) && BothSecure(t)
  }

  /** An exchange can secure both ends exactly when the secret of their keys exists and has a hash. */
  lemma ExchangeCanSecureExactlyWhen(c: Crypto, s: State)
    requires Commutes(c) && MessagesParse(c) && Initial(s)
    ensures CanSecure(c, s) <==> Possible(c, s)
  {
    if Possible(c, s) {
      var steps, t := UnimpededRunSecures(c, s, []);
    }
    forall steps, t | Reaches(c, s, steps, t) && BothSecure(t) ensures Possible(c, s) {
      InitialInv(c, s);
      HandshakeAgreement(c, s, steps, t);
      KeysKept(c, s, steps, t);
    }
  }

  lemma StepKeepsKeys(c: Crypto, s: State, step: Step)
    ensures Apply(c, s, step).host.dhKey == s.host.dhKey && Apply(c, s, step).peer.dhKey == s.peer.dhKey
  {
    hide TakeFrame, InitMessage;
  }

  lemma {:induction false} KeysKept(c: Crypto, s: State, steps: seq<Step>, t: State)
    requires Reaches(c, s, steps, t)
    ensures t.host.dhKey == s.host.dhKey && t.peer.dhKey == s.peer.dhKey
    decreases |steps|
  {
    hide Apply, Enabled;
    if steps != [] {
      StepKeepsKeys(c, s, steps[0]);
      KeysKept(c, Apply(c, s, steps[0]), steps[1..], t);
    }
  }

  /** With every message delivered and every send successful, the four steps complete the exchange. */
  lemma UnimpededRunSecures(c: Crypto, s: State, rand: Bytes) returns (steps: seq<Step>, t: State)
    requires Commutes(c) && MessagesParse(c) && Initial(s) && Possible(c, s)
    ensures Reaches(c, s, steps, t) && BothSecure(t)
    ensures t.hostStage.HostDone? && t.peerStage.PeerDone? && t.host.iv == rand
  {
    var s1 := Apply(c, s, HostInit(rand, true));
    WholePayload(InitMessage(c, s1.host));
    var s2 := Apply(c, s1, PeerAccept(true, true));
    WholePayload(c.peerMessage(c.publicKey(s.peer.dhKey)));
    var s3 := Apply(c, s2, HostFinal(true, true));
    assert TakeFrame(SecureSockets.CONFIRMATION, NUL).0 == [1];
    t := Apply(c, s3, PeerConfirm(true));
    steps := [PeerConfirm(true)];
    assert Reaches(c, s3, steps, t);
    ReachesCons(c, s2, HostFinal(true, true), steps, t);
    ReachesCons(c, s1, PeerAccept(true, true), [HostFinal(true, true)] + steps, t);
    ReachesCons(c, s, HostInit(rand, true), [PeerAccept(true, true)] + ([HostFinal(true, true)] + steps), t);
    steps := [HostInit(rand, true)] + ([PeerAccept(true, true)] + ([HostFinal(true, true)] + steps));
  }

  lemma ReachesCons(c: Crypto, s: State, step: Step, steps: seq<Step>, t: State)
    requires Enabled(s, step) && Reaches(c, Apply(c, s, step), steps, t)
    ensures Reaches(c, s, [step] + steps, t)
  {
    assert ([step] + steps)[1..] == steps;
  }
}
