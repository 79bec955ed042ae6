/**
 The cryptography and the message formats, as opaque functions, and the four steps of the
 handshake as functions of one end's state.
 */
module Cryptography {
  import opened Options
  import opened Bits

  type Bytes = seq<byte>

  /**
   AES-256-CBC, the hash, the ffdhe2048 exchange and the protobuf messages; an error message
   is made of a code and a time. `None` is whatever the libraries report as failure.
   */
  datatype Crypto = Crypto(
    encrypt: (Bytes, Bytes, Bytes) -> Option<Bytes>,
    decrypt: (Bytes, Bytes, Bytes) -> Option<Bytes>,
    hash: Bytes -> Option<Bytes>,
    publicKey: Bytes -> Bytes,
    derive: (Bytes, Bytes) -> Option<Bytes>,
    hostMessage: (Bytes, Bytes) -> Bytes,
    parseHost: Bytes -> Option<(Bytes, Bytes)>,
    peerMessage: Bytes -> Bytes,
    parsePeer: Bytes -> Option<Bytes>,
    errorMessage: (int, nat) -> Bytes)

  /** Removing CBC padding never lengthens a text. */
  ghost predicate Shrinks(c: Crypto) {
    forall text, key, iv :: c.decrypt(text, key, iv).Some? ==> |c.decrypt(text, key, iv).value| <= |text|
  }

  ghost predicate Decrypts(c: Crypto) {
    forall text, key, iv :: c.encrypt(text, key, iv).Some? ==>
      c.decrypt(c.encrypt(text, key, iv).value, key, iv) == Some(text)
  }

  /** Both ends of an exchange derive the same secret, or both fail. */
  ghost predicate Commutes(c: Crypto) {
    forall a, b :: c.derive(a, c.publicKey(b)) == c.derive(b, c.publicKey(a))
  }

  ghost predicate MessagesParse(c: Crypto) {
    && (forall pk, iv :: c.parseHost(c.hostMessage(pk, iv)) == Some((pk, iv)))
    && (forall pk :: c.parsePeer(c.peerMessage(pk)) == Some(pk))
  }

  /** The handshake state of one secure socket; `dhKey` and `dhSecret` live in its exchange object. */
  datatype End = End(isSecure: bool, secret: Bytes, key: Bytes, iv: Bytes, dhKey: Bytes, dhSecret: Bytes)

  function ClearedEnd(e: End): End {
    e.(isSecure := false, secret := [], key := [])
  }

  /** `handshake_init`, with the random vector it draws. */
  function InitEnd(e: End, rand: Bytes): End {
    ClearedEnd(e).(iv := rand)
  }

  function InitMessage(c: Crypto, e: End): Bytes {
    c.hostMessage(c.publicKey(e.dhKey), e.iv)
  }

  /** `handshake_accept` on the data received, if any: the new state and the reply to send. */
  function AcceptEnd(c: Crypto, e: End, data: Option<Bytes>): (End, Option<Bytes>) {
    var e1 := ClearedEnd(e);
    if data.None? then (e1, None)
    else
      match c.parseHost(data.value)
      case None => (e1, None)
      case Some((pk, iv)) =>
        var e2 := e1.(iv := iv);
        match c.derive(e.dhKey, pk)
        case None => (e2, None)
        case Some(secret) => (e2.(dhSecret := secret), Some(c.peerMessage(c.publicKey(e.dhKey))))
  }

  /** `handshake_final` on the data received, if any: the new state and whether it is to confirm. */
  function FinalEnd(c: Crypto, e: End, data: Option<Bytes>): (End, bool) {
    if data.None? then (e, false)
    else
      match c.parsePeer(data.value)
      case None => (e, false)
      case Some(pk) =>
        match c.derive(e.dhKey, pk)
        case None => (e, false)
        case Some(secret) => Secured(c, e.(dhSecret := secret))
  }

  /** `handshake_confirm` on the frame read, if two bytes arrived. */
  function ConfirmEnd(c: Crypto, e: End, frame: Option<Bytes>): (End, bool) {
    if frame.None? || frame.value == [] || frame.value[0] != 1 then (e, false) else Secured(c, e)
  }

  /** The common end of both sides: the derived secret is stored, hashed, and becomes the key. */
  function Secured(c: Crypto, e: End): (End, bool) {
    var e1 := e.(secret := e.dhSecret);
    match c.hash(e1.secret)
    case None => (e1, false)
    case Some(key) => (e1.(key := key, isSecure := true), true)
  }
}
