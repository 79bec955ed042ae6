/**
 A connected socket: a receive side that fills the ring, delimited reads from it, and a send
 side that copes with partial sends.
 */
module Sockets {
  import opened Bits
  import opened RingGeometry
  import opened Delimiters
  import opened Receivers
  import opened Attempts
  import opened CircularBuffers
  import opened Framing

  class Socket {
    const rx: Receiver
    const buf: CircularBuf

    ghost predicate Valid()
      reads this, buf
    {
      buf.Valid() && buf.capacity == DEFAULT_CAPACITY
    }

    /** The bytes received and not yet read. */
    ghost function Contents(): (s: seq<byte>)
      requires Valid()
      reads this, buf, buf.buf
      ensures |s| <= DEFAULT_CAPACITY
    {
      buf.Contents()
    }

    constructor (rx: Receiver)
      ensures Valid() && this.rx == rx && fresh(buf) && fresh(buf.buf) && Contents() == []
    {
      this.rx := rx;
      assert IsPowerOfTwo(DEFAULT_CAPACITY);
      buf := new CircularBuf(DEFAULT_CAPACITY);
    }

    /**
     Receive into the ring: at most `len` bytes, or as many as fit when `len` is zero. The
     reported space is the space left. No call asks the system for zero bytes, so a zero
     answer closes the descriptor only when the peer has nothing left to send.
     */
    method TryRecv(len: uint32)
      returns (nbytes: nat, space: nat, ghost landed: seq<byte>, ghost chunk: seq<byte>, ghost made: seq<Call>)
      requires Valid()
      modifies buf`w, buf.buf, rx`pending, rx`taken, rx`calls, rx`dirty, rx`fd, rx`listening
      ensures Valid()
      ensures |landed| == |chunk| == nbytes == Total(made) && (len > 0 ==> nbytes <= len)
      ensures Contents() == old(Contents()) + landed && (Seamless(made) ==> landed == chunk)
      ensures LandedAs(old(buf.Where()), chunk, made, landed)
      ensures space == DEFAULT_CAPACITY - |Contents()|
      ensures Consumed(old(rx.In()), chunk, made, rx.In()) && |made| <= 2 && AskedForBytes(made)
      ensures forall i :: 0 <= i < |made| ==> made[i].blocking == (!rx.nonblocking && i == 0)
      ensures made == [] <==> |old(Contents())| == DEFAULT_CAPACITY
      ensures var room := DEFAULT_CAPACITY - |old(Contents())|;
        var wanted := if len > 0 then Min(len, room) else room;
        var place := old(buf.Where());
        && (made != [] ==> Planned(made, DEFAULT_CAPACITY, place.a, place.b, wanted, !rx.nonblocking))
        && (Filled(made) ==> nbytes == wanted)
    {
      hide Planned, Mask, Cell, Total, Seamless, HungUp, Filled, LandedAs, Consumed;
      ghost var live := Contents();
      rx.dirty := false;
      var limit := if len != 0 then len else buf.Space();
      ghost var a, n := Mask(buf.capacity, buf.r), Min(limit, buf.Space());
      buf.WriteCell();
      nbytes, chunk, made := buf.WriteVia(rx, limit);
      if made != [] {
        PlannedCallsAreProper(made, DEFAULT_CAPACITY, a, |live|, n, !rx.nonblocking);
        if Filled(made) {
          FilledCallsTakeAll(made, DEFAULT_CAPACITY, a, |live|, n, !rx.nonblocking);
        }
      }
      space := buf.Space();
      landed := Contents()[|live|..];
    }

    /** Put all bytes on the wire, or report failure after a proper prefix of them. */
    method TrySend(data: seq<byte>) returns (ok: bool)
      modifies rx`sent, rx`refused, rx`done
      ensures Transmitted(rx.Connected(), old(rx.Out()), data, rx.Out(), ok)
      ensures rx.fd == 0 || rx.listening ==> !ok && rx.Out() == old(rx.Out())
      ensures rx.fd != 0 && !rx.listening ==> rx.refused == old(rx.refused) + if ok then 0 else 1
      ensures ok ==> rx.sent == old(rx.sent) + data
      ensures !ok && rx.fd != 0 && !rx.listening ==>
        exists k :: 0 <= k < |data| && rx.sent == old(rx.sent) + data[..k]
    {
      if !rx.Connected() {
        return false;
      }
      var total := 0;
      while total < |data|
        invariant total <= |data|
        invariant rx.Out() == old(rx.Out()).(sent := old(rx.sent) + data[..total])
        decreases |data| - total
      {
        var bytesSent := rx.Send(data[total..]);
        if bytesSent == -1 {
          rx.done := rx.done + [Attempt(data, total, false)];
          return false;
        }
        assert data[..total] + data[total..][..bytesSent] == data[..total + bytesSent];
        total := total + bytesSent;
      }
      rx.done := rx.done + [Attempt(data, total, true)];
      assert data[..|data|] == data;
      return true;
    }

    /** Send a text, by default with its NUL terminator. */
    method TrySendText(data: seq<byte>, terminate: bool) returns (ok: bool)
      modifies rx`sent, rx`refused, rx`done
      ensures Transmitted(rx.Connected(), old(rx.Out()), if terminate then data + [NUL] else data, rx.Out(), ok)
      ensures ok ==> rx.sent == old(rx.sent) + if terminate then data + [NUL] else data
      ensures rx.fd != 0 && !rx.listening ==> rx.refused == old(rx.refused) + if ok then 0 else 1
    {
      assert data + [] == data;
      ok := TrySend(data + if terminate then [NUL] else []);
    }

    /**
     Take the first frame out of the ring. Without a delimiter the ring is drained and
     written back, which leaves the same contents under different cursors.
     */
    method ReadBuffer(delim: byte) returns (frame: seq<byte>)
      requires Valid()
      modifies buf`r, buf`w, buf.buf
      ensures Valid()
      ensures (frame, Contents()) == TakeFrame(old(Contents()), delim)
      ensures FirstFrame(old(Contents()), delim, frame, Contents())
    {
      TakeFrameSplits(Contents(), delim);
      if buf.Empty() {
        return [];
      }
      ghost var s := Contents();
      var bytes := buf.ReadTo(delim);
      if bytes[|bytes| - 1] != delim {
        assert bytes == s == s[..|s|];
        var n := buf.Write(bytes);
        assert [] + bytes[..n] == s;
        return [];
      }
      assert s[..|bytes|][..|bytes| - 1] == s[..|bytes| - 1];
      IndexOfEnds(s, delim);
      frame := bytes[..|bytes| - 1];
    }

    /** The overload for delimiter strings: one byte is removed on success, a rotation on failure. */
    method ReadBufferString(delim: seq<byte>) returns (frame: seq<byte>)
      requires Valid()
      modifies buf`r, buf`w, buf.buf
      ensures Valid()
      ensures (frame, Contents()) == TakeString(old(Contents()), delim)
    {
      if buf.Empty() {
        return [];
      }
      ghost var s := Contents();
      var bytes := buf.ReadToString(delim);
      if |bytes| < |delim| || bytes[|bytes| - |delim|..] != delim {
        var n := buf.Write(bytes);
        assert bytes[..n] == bytes;
        assert |bytes| >= |delim| ==> bytes[|bytes| - |delim|..] == s[|bytes| - |delim|..|bytes|];
        return [];
      }
      assert bytes[|bytes| - |delim|..] == s[|bytes| - |delim|..|bytes|];
      assert bytes[..|bytes| - 1] == s[..|bytes| - 1];
      frame := bytes[..|bytes| - 1];
    }

    method FlushBuffer() returns (data: seq<byte>)
      requires Valid()
      modifies buf`r
      ensures Valid() && data == old(Contents()) && Contents() == []
    {
      data := buf.Read(0xFFFF_FFFF);
    }

    method ClearBuffer()
      requires Valid()
      modifies buf`r, buf`w, buf.buf
      ensures Valid() && Contents() == []
    {
      buf.Clear();
    }
  }
}
