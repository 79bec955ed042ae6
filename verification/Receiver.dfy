/**
 The part of a socket that its receive callback reaches through the untyped argument, and
 the operating system's side of the connection.

 `pending` is everything the peer will ever send and we have not received, `taken` what we
 have received, `sent` what we have put on the wire, `refused` how many sends failed. Each
 system call may deliver as little as it likes, so a property proved here holds for every
 way of cutting the stream.
 */
module Receivers {
  import opened Bits
  import opened Attempts

  /** One run of the receive callback: the window it was given and what the system call returned. */
  datatype Call = Call(at: nat, len: nat, result: int, blocking: bool)

  /** How many bytes a run stored. */
  function Got(c: Call): nat {
    if c.result > 0 then c.result else 0
  }

  /** How many bytes the runs stored. */
  function Total(calls: seq<Call>): nat {
    if calls == [] then 0 else Total(calls[..|calls| - 1]) + Got(calls[|calls| - 1])
  }

  lemma TotalOfCalls(calls: seq<Call>)
    requires 1 <= |calls| <= 2
    ensures Total(calls) == Got(calls[0]) + if |calls| == 2 then Got(calls[1]) else 0
  {
    assert Total(calls[..1]) == Got(calls[0]) by { assert calls[..1][..0] == []; }
    assert |calls| == 1 ==> calls[..1] == calls;
  }

  /** The peer hung up during one of the calls. */
  predicate HungUp(calls: seq<Call>) {
    exists i :: 0 <= i < |calls| && calls[i].result == 0
  }

  /** Every run stored all it was asked for. */
  predicate Filled(calls: seq<Call>) {
    forall i :: 0 <= i < |calls| ==> Got(calls[i]) == calls[i].len
  }

  predicate AskedForBytes(calls: seq<Call>) {
    forall i :: 0 <= i < |calls| ==> calls[i].len > 0
  }

  /** The receive side of a connection. */
  datatype Inbound = Inbound(fd: nat, listening: bool, pending: seq<byte>, taken: seq<byte>, calls: seq<Call>)

  /**
   These runs of the callback took exactly `chunk` off the stream. The descriptor was closed
   exactly when the system reported 0, which means the end of the stream unless zero bytes
   were asked for.
   */
  ghost predicate Consumed(before: Inbound, chunk: seq<byte>, made: seq<Call>, after: Inbound) {
    && before.pending == chunk + after.pending && after.taken == before.taken + chunk
    && after.calls == before.calls + made && |chunk| == Total(made)
    && (if HungUp(made) then after.fd == 0 && !after.listening && (AskedForBytes(made) ==> after.pending == [])
        else after.fd == before.fd && after.listening == before.listening)
  }

  lemma ConsumedNothing(s: Inbound)
    ensures Consumed(s, [], [], s)
  {
    assert [] + s.pending == s.pending && s.taken + [] == s.taken && s.calls + [] == s.calls;
  }

  lemma ConsumedTwice(s0: Inbound, first: seq<byte>, c: Call, s1: Inbound, second: seq<byte>, d: Call, s2: Inbound)
    requires Consumed(s0, first, [c], s1) && Consumed(s1, second, [d], s2)
    ensures Consumed(s0, first + second, [c, d], s2)
  {
    TotalOfCalls([c]);
    TotalOfCalls([d]);
    TotalOfCalls([c, d]);
    assert [c, d][0] == c && [c, d][1] == d;
    assert [c][0] == c && [d][0] == d;
    assert s0.taken + first + second == s0.taken + (first + second);
    assert s0.calls + [c] + [d] == s0.calls + [c, d];
    assert first + (second + s2.pending) == first + second + s2.pending;
  }

  /** Overwrite a stretch of memory. */
  function Splice(cells: seq<byte>, at: nat, chunk: seq<byte>): (s: seq<byte>)
    requires at + |chunk| <= |cells|
    ensures |s| == |cells|
  {
    seq(|cells|, i requires 0 <= i < |cells| => if at <= i < at + |chunk| then chunk[i - at] else cells[i])
  }

  lemma SpliceNothing(cells: seq<byte>, at: nat)
    requires at <= |cells|
    ensures Splice(cells, at, []) == cells
  {
  }

  class Receiver {
    var fd: nat
    var listening: bool
    var nonblocking: bool
    var dirty: bool

    var pending: seq<byte>
    var taken: seq<byte>
    var sent: seq<byte>
    var refused: nat
    var calls: seq<Call>
    ghost var done: seq<Attempt>

    constructor (fd: nat, nonblocking: bool, pending: seq<byte>)
      ensures this.fd == fd && this.nonblocking == nonblocking && this.pending == pending
      ensures !listening && !dirty && taken == [] && sent == [] && refused == 0 && calls == [] && done == []
    {
      this.fd, this.nonblocking, this.pending := fd, nonblocking, pending;
      listening, dirty, taken, sent, refused, calls, done := false, false, [], [], 0, [], [];
    }

    /**
     The system call `recvfrom`: -1 on any error or when nothing has arrived, 0 when the
     peer has closed (or nothing was asked for), and otherwise a count of stored bytes.
     */
    method RecvFrom(dest: array<byte>, at: nat, n: nat) returns (nbytes: int)
      requires at + n <= dest.Length
      modifies dest, this`pending, this`taken
      ensures -1 <= nbytes <= n
      ensures fd == 0 ==> nbytes == -1
      ensures nbytes == 0 && n > 0 ==> pending == []
      ensures var k := if nbytes > 0 then nbytes else 0;
        && k <= |old(pending)|
        && pending == old(pending)[k..]
        && taken == old(taken) + old(pending)[..k]
        && dest[..] == Splice(old(dest[..]), at, old(pending)[..k])
    {
      var arrived: nat :| arrived <= n && arrived <= |pending|;
      if fd == 0 || (arrived == 0 && pending != [] && n > 0) {
        return -1;
      }
      forall i | 0 <= i < arrived {
        dest[at + i] := pending[i];
      }
      taken, pending := taken + pending[..arrived], pending[arrived..];
      return arrived;
    }

    method CloseFd()
      modifies this`fd, this`listening
      ensures fd == 0 && !listening
    {
      fd := 0;
      listening := false;
    }

    /** The receive callback; only its first run within one `try_recv` may block. */
    method Callback(dest: array<byte>, at: nat, n: nat) returns (got: nat, ghost chunk: seq<byte>, ghost call: Call)
      requires at + n <= dest.Length
      modifies dest, this`pending, this`taken, this`calls, this`dirty, this`fd, this`listening
      ensures |chunk| == got == Got(call) <= n && Consumed(old(In()), chunk, [call], In())
      ensures dest[..] == Splice(old(dest[..]), at, chunk)
      ensures dirty && call.at == at && call.len == n && call.blocking == (!nonblocking && !old(dirty))
      ensures old(fd) == 0 ==> call.result == -1
    {
      var blocking := !nonblocking && !dirty;
      ghost var before := pending;
      var nbytes := RecvFrom(dest, at, n);
      dirty := true;
      got := if nbytes > 0 then nbytes else 0;
      chunk := before[..got];
      call := Call(at, n, nbytes, blocking);
      calls := calls + [Call(at, n, nbytes, blocking)];
      if nbytes == 0 {
        CloseFd();
      }
      TotalOfCalls([call]);
      assert [call][0] == call;
    }

    predicate Connected()
      reads this
    {
      fd != 0 && !listening
    }

    ghost function In(): Inbound
      reads this
    {
      Inbound(fd, listening, pending, taken, calls)
    }

    ghost function Out(): Outbound
      reads this
    {
      Outbound(sent, refused, done)
    }

    /** The system call `send`: at least one byte is taken, or -1 is returned and none is. */
    method Send(data: seq<byte>) returns (nbytes: int)
      requires data != []
      modifies this`sent, this`refused
      ensures nbytes == -1 || 1 <= nbytes <= |data|
      ensures if nbytes == -1 then sent == old(sent) && refused == old(refused) + 1
              else sent == old(sent) + data[..nbytes] && refused == old(refused)
    {
      var k: nat :| k <= |data|;
      if k == 0 {
        refused := refused + 1;
        return -1;
      }
      sent := sent + data[..k];
      return k;
    }
  }
}
