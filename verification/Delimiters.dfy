/**
 Delimited reads: how many bytes each `read_to` overload takes off the front of a ring, and
 how that compares with the documented "up to the first delimiter".
 */
module Delimiters {
  import opened Bits

  /** The first position of `d`, or the length when there is none. */
  function IndexOf(s: seq<byte>, d: byte): (i: nat)
    ensures i <= |s| && d !in s[..i]
    ensures i < |s| ==> s[i] == d
  {
    if s == [] || s[0] == d then 0
    else
      var i := 1 + IndexOf(s[1..], d);
      assert s[..i] == [s[0]] + s[1..][..i - 1];
      i
  }

  lemma {:induction false} IndexOfUnique(s: seq<byte>, d: byte, i: nat)
    requires i <= |s| && d !in s[..i] && (i < |s| ==> s[i] == d)
    ensures IndexOf(s, d) == i
  {
    if i > 0 {
      assert s[..i][0] == s[0];
      assert s[1..][..i - 1] == s[..i][1..];
      IndexOfUnique(s[1..], d, i - 1);
    }
  }

  /** How many bytes a read up to and including the delimiter takes: all, when it is absent. */
  function ThroughFirst(s: seq<byte>, d: byte): (n: nat)
    ensures n <= |s|
  {
    var i := IndexOf(s, d);
    if i < |s| then i + 1 else i
  }

  /** A delimited read ends with the delimiter exactly when there is one to find. */
  lemma IndexOfEnds(s: seq<byte>, d: byte)
    requires s != []
    ensures var n := ThroughFirst(s, d);
      n > 0 && (s[n - 1] == d <==> IndexOf(s, d) < |s|) && (s[n - 1] != d ==> n == |s|)
  {
    assert s[..|s|] == s;
  }

  /**
   The string overload's test after `from + 1` bytes have been taken out of `lim`: it compares
   the delimiter with the last byte taken and with cells of the result still zero.
   */
  predicate StringTest(b: byte, from: nat, lim: nat, delim: seq<byte>) {
    && from + |delim| <= lim
    && (delim != [] ==> b == delim[0])
    && (forall k :: 1 <= k < |delim| ==> delim[k] == 0)
  }

  /** How many bytes the string overload takes, having taken `from` without success. */
  function StringTaken(s: seq<byte>, from: nat, delim: seq<byte>): (n: nat)
    requires from <= |s|
    ensures from <= n <= |s| && (from < |s| ==> from < n)
    decreases |s| - from
  {
    if from == |s| then from
    else if StringTest(s[from], from, |s|, delim) then from + 1
    else StringTaken(s, from + 1, delim)
  }

  /** On a delimiter of length one the two overloads take the same bytes. */
  lemma {:induction false} OneByteOverloadsAgree(s: seq<byte>, from: nat, d: byte)
    requires from <= |s| && d !in s[..from]
    ensures StringTaken(s, from, [d]) == ThroughFirst(s, d)
    decreases |s| - from
  {
    if from == |s| {
      IndexOfUnique(s, d, from);
    } else if s[from] == d {
      IndexOfUnique(s, d, from);
    } else {
      assert s[..from + 1] == s[..from] + [s[from]];
      OneByteOverloadsAgree(s, from + 1, d);
    }
  }

  predicate OccursAt(s: seq<byte>, delim: seq<byte>, i: nat) {
    i + |delim| <= |s| && s[i..i + |delim|] == delim
  }

  /** The documented behaviour: take through the end of the first occurrence, or everything. */
  function DocumentedTaken(s: seq<byte>, from: nat, delim: seq<byte>): (n: nat)
    requires from <= |s|
    ensures n <= |s|
    decreases |s| - from
  {
    if OccursAt(s, delim, from) then from + |delim|
    else if from == |s| then from
    else DocumentedTaken(s, from + 1, delim)
  }

  lemma {:induction false} DocumentedOneByte(s: seq<byte>, from: nat, d: byte)
    requires from <= |s| && d !in s[..from]
    ensures DocumentedTaken(s, from, [d]) == ThroughFirst(s, d)
    decreases |s| - from
  {
    if from == |s| {
      IndexOfUnique(s, d, from);
    } else if s[from] == d {
      assert OccursAt(s, [d], from);
      IndexOfUnique(s, d, from);
    } else {
      assert !OccursAt(s, [d], from) by { assert s[from..from + 1][0] == s[from]; }
      assert s[..from + 1] == s[..from] + [s[from]];
      DocumentedOneByte(s, from + 1, d);
    }
  }

  /** In a ring of this capacity, the string overload takes what is documented, whatever the contents. */
  ghost predicate ReadAsDocumented(capacity: nat, delim: seq<byte>) {
    forall s: seq<byte> :: |s| <= capacity ==> StringTaken(s, 0, delim) == DocumentedTaken(s, 0, delim)
  }

  /** Some byte behind the first is not zero, so the search never succeeds. */
  predicate NeverFindable(delim: seq<byte>) {
    exists k :: 1 <= k < |delim| && delim[k] != 0
  }

  /**
   The string overload reads up to the first delimiter, as documented, only for one-byte
   delimiters and those that cannot end before the contents do: the ones longer than the
   ring, and those of its very length that the search never finds.
   */
  lemma StringReadAsDocumentedExactlyWhen(capacity: nat, delim: seq<byte>)
    requires capacity > 0
    ensures ReadAsDocumented(capacity, delim) <==>
      |delim| == 1 || |delim| > capacity || (|delim| == capacity && NeverFindable(delim))
  {
    if |delim| == 1 {
      assert delim == [delim[0]];
      forall s: seq<byte> ensures StringTaken(s, 0, delim) == DocumentedTaken(s, 0, delim) {
        OneByteOverloadsAgree(s, 0, delim[0]);
        DocumentedOneByte(s, 0, delim[0]);
      }
    } else if |delim| > capacity || (|delim| == capacity && NeverFindable(delim)) {
      forall s: seq<byte> | |s| <= capacity ensures StringTaken(s, 0, delim) == DocumentedTaken(s, 0, delim) {
        if |s| < |delim| {
          TooShort(s, 0, delim);
        } else {
          NeverFound(s, 0, delim);
          TakenWhenEqual(s, delim);
        }
      }
    } else {
      var s := Misread(capacity, delim);
    }
  }

  /** An empty delimiter is found behind the first byte. */
  lemma EmptyTakesOne(s: seq<byte>)
    ensures StringTaken(s, 0, []) == if s == [] then 0 else 1
  {
  }

  /** A delimiter of zeros behind its first byte is found at the first such byte, if its length fits from there. */
  lemma {:induction false} ZeroTailTaken(s: seq<byte>, from: nat, delim: seq<byte>)
    requires delim != [] && !NeverFindable(delim) && from <= |s| && delim[0] !in s[..from]
    ensures StringTaken(s, from, delim) ==
      if IndexOf(s, delim[0]) + |delim| <= |s| then IndexOf(s, delim[0]) + 1 else |s|
    decreases |s| - from
  {
    if from == |s| {
      IndexOfUnique(s, delim[0], from);
    } else if s[from] == delim[0] {
      IndexOfUnique(s, delim[0], from);
      if from + |delim| > |s| {
        NoRoomTakesAll(s, from, delim);
      }
    } else {
      assert s[..from + 1] == s[..from] + [s[from]];
      ZeroTailTaken(s, from + 1, delim);
    }
  }

  lemma {:induction false} NoRoomTakesAll(s: seq<byte>, from: nat, delim: seq<byte>)
    requires from <= |s| < from + |delim|
    ensures StringTaken(s, from, delim) == |s|
    decreases |s| - from
  {
    if from < |s| {
      NoRoomTakesAll(s, from + 1, delim);
    }
  }

  /** Contents that do not have room for the delimiter are taken whole, and that is what is documented. */
  lemma {:induction false} TooShort(s: seq<byte>, from: nat, delim: seq<byte>)
    requires from <= |s| < |delim|
    ensures StringTaken(s, from, delim) == |s| == DocumentedTaken(s, from, delim)
    decreases |s| - from
  {
    if from < |s| {
      TooShort(s, from + 1, delim);
    }
  }

  /** Contents of the delimiter's own length are documented to be taken whole. */
  lemma TakenWhenEqual(s: seq<byte>, delim: seq<byte>)
    requires |s| == |delim| > 0
    ensures DocumentedTaken(s, 0, delim) == |s|
  {
    if !OccursAt(s, delim, 0) {
      NowhereBehind(s, 1, delim);
    }
  }

  lemma {:induction false} NowhereBehind(s: seq<byte>, from: nat, delim: seq<byte>)
    requires 1 <= from <= |s| == |delim|
    ensures DocumentedTaken(s, from, delim) == |s|
    decreases |s| - from
  {
    if from < |s| {
      NowhereBehind(s, from + 1, delim);
    }
  }

  lemma Misread(capacity: nat, delim: seq<byte>) returns (s: seq<byte>)
    requires capacity > 0 && |delim| != 1 && |delim| <= capacity && (|delim| == capacity ==> !NeverFindable(delim))
    ensures |s| <= capacity && StringTaken(s, 0, delim) != DocumentedTaken(s, 0, delim)
  {
    s := if |delim| < capacity then delim + [0] else delim;
    assert OccursAt(s, delim, 0);
    if NeverFindable(delim) {
      NeverFound(s, 0, delim);
    } else {
      assert StringTest(s[0], 0, |s|, delim);
    }
  }

  /** A delimiter with a nonzero byte after its first one is never found. */
  lemma {:induction false} NeverFound(s: seq<byte>, from: nat, delim: seq<byte>)
    requires from <= |s|
    requires NeverFindable(delim)
    ensures StringTaken(s, from, delim) == |s|
    decreases |s| - from
  {
    if from < |s| {
      NeverFound(s, from + 1, delim);
    }
  }

  lemma WindowIsStringTest(data: seq<byte>, from: nat, b: byte, delim: seq<byte>)
    requires from < |data| && data[from] == b
    requires forall k :: from < k < |data| ==> data[k] == 0
    ensures (from + |delim| <= |data| && data[from..from + |delim|] == delim) <==> StringTest(b, from, |data|, delim)
  {
    if from + |delim| <= |data| {
      var v := data[from..from + |delim|];
      if StringTest(b, from, |data|, delim) {
        assert v == delim;
      }
      if v == delim {
        assert forall k :: 1 <= k < |delim| ==> v[k] == data[from + k];
      }
    }
  }
}
