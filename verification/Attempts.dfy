/**
 The send side of a connection: what each call of `try_send` was given and how much of it
 got onto the wire.
 */
module Attempts {
  import opened Bits
  import opened Framing

  /** One completed call: how much of its data got onto the wire. */
  datatype Attempt = Attempt(data: seq<byte>, sent: nat, ok: bool)

  /** The wire, the number of system calls that failed, and the completed calls. */
  datatype Outbound = Outbound(sent: seq<byte>, refused: nat, done: seq<Attempt>)

  ghost predicate WellSent(a: Attempt) {
    if a.ok then a.sent == |a.data| else a.sent < |a.data|
  }

  /** What the completed calls contributed, call by call. */
  function WireOf(done: seq<Attempt>): seq<byte> {
    if done == [] then [] else done[0].data[..Cut(done[0])] + WireOf(done[1..])
  }

  function Cut(a: Attempt): (n: nat)
    ensures n <= |a.data|
  {
    if a.sent <= |a.data| then a.sent else |a.data|
  }

  function DataOf(done: seq<Attempt>): seq<seq<byte>> {
    if done == [] then [] else [done[0].data] + DataOf(done[1..])
  }

  function Refusals(done: seq<Attempt>): nat {
    if done == [] then 0 else (if done[0].ok then 0 else 1) + Refusals(done[1..])
  }

  lemma {:induction false} Concat(a: seq<Attempt>, b: seq<Attempt>)
    ensures WireOf(a + b) == WireOf(a) + WireOf(b)
    ensures DataOf(a + b) == DataOf(a) + DataOf(b)
    ensures Refusals(a + b) == Refusals(a) + Refusals(b)
  {
    if a == [] {
      assert a + b == b;
    } else {
      assert (a + b)[1..] == a[1..] + b;
      Concat(a[1..], b);
      Associative(a[0].data[..Cut(a[0])], WireOf(a[1..]), WireOf(b));
      Associative([a[0].data], DataOf(a[1..]), DataOf(b));
    }
  }

  lemma WireOfAppend(done: seq<Attempt>, a: Attempt)
    ensures WireOf(done + [a]) == WireOf(done) + a.data[..Cut(a)]
  {
    Concat(done, [a]);
    Single(a);
  }

  lemma Single(a: Attempt)
    ensures WireOf([a]) == a.data[..Cut(a)] && DataOf([a]) == [a.data] && Refusals([a]) == if a.ok then 0 else 1
  {
    assert [a][1..] == [];
    assert a.data[..Cut(a)] + [] == a.data[..Cut(a)] && [a.data] + [] == [a.data];
  }

  /** One attempt: all of `data` went out, or a proper prefix before a refusal, or nothing on a line that is down. */
  ghost predicate Transmitted(up: bool, before: Outbound, data: seq<byte>, after: Outbound, ok: bool) {
    if !up then !ok && after == before
    else
      var k := |after.sent| - |before.sent|;
      && 0 <= k <= |data| && (ok <==> k == |data|)
      && after.sent == before.sent + data[..k]
      && after.refused == before.refused + (if ok then 0 else 1)
      && after.done == before.done + [Attempt(data, k, ok)]
  }

  /** One attempt each for these texts, in order, and nothing else; nothing at all on a line that is down. */
  ghost predicate Spoke(up: bool, before: Outbound, texts: seq<seq<byte>>, after: Outbound) {
    && |before.done| <= |after.done| && after.done[..|before.done|] == before.done
    && Spoken(before, if up then texts else [], after.done[|before.done|..], after)
  }

  ghost predicate Spoken(before: Outbound, texts: seq<seq<byte>>, more: seq<Attempt>, after: Outbound) {
    && DataOf(more) == texts && (forall a :: a in more ==> WellSent(a))
    && after.sent == before.sent + WireOf(more)
    && after.refused == before.refused + Refusals(more)
  }

  lemma SpokeNothing(up: bool, s: Outbound)
    ensures Spoke(up, s, [], s)
  {
    assert s.done[..|s.done|] == s.done && s.done[|s.done|..] == [] && s.sent + [] == s.sent;
  }

  lemma SpokeOnce(up: bool, before: Outbound, data: seq<byte>, after: Outbound, ok: bool)
    requires Transmitted(up, before, data, after, ok)
    ensures Spoke(up, before, [data], after)
  {
    if up {
      var a := Attempt(data, |after.sent| - |before.sent|, ok);
      assert after.done[|before.done|..] == [a];
      Single(a);
    } else {
      SpokeNothing(up, before);
    }
  }

  lemma SpokeThen(up: bool, s0: Outbound, x: seq<seq<byte>>, s1: Outbound, y: seq<seq<byte>>, s2: Outbound)
    requires Spoke(up, s0, x, s1) && Spoke(up, s1, y, s2)
    ensures Spoke(up, s0, x + y, s2)
  {
    var a, b := s1.done[|s0.done|..], s2.done[|s1.done|..];
    assert s1.done == s0.done + a && s2.done == s1.done + b;
    Associative(s0.done, a, b);
    assert (s0.done + (a + b))[|s0.done|..] == a + b && (s0.done + (a + b))[..|s0.done|] == s0.done;
    Concat(a, b);
    Associative(s0.sent, WireOf(a), WireOf(b));
  }

  /** With no refusal, the wire has grown by the texts themselves. */
  lemma UnrefusedTextsArrive(before: Outbound, texts: seq<seq<byte>>, after: Outbound)
    requires Spoke(true, before, texts, after) && after.refused == before.refused
    ensures after.sent == before.sent + Flatten(texts)
  {
    Unrefused(after.done[|before.done|..]);
  }

  function Flatten(texts: seq<seq<byte>>): seq<byte> {
    if texts == [] then [] else texts[0] + Flatten(texts[1..])
  }

  lemma {:induction false} Unrefused(done: seq<Attempt>)
    requires Refusals(done) == 0 && forall a :: a in done ==> WellSent(a)
    ensures WireOf(done) == Flatten(DataOf(done))
  {
    if done != [] {
      assert done[0] in done && forall a :: a in done[1..] ==> a in done;
      assert done[0].data[..|done[0].data|] == done[0].data;
      assert DataOf(done)[1..] == DataOf(done[1..]);
      Unrefused(done[1..]);
    }
  }
}
