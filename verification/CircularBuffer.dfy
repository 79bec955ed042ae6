/**
 The circular buffer: an array, two free-running cursors, and a bounded byte queue as its
 abstract value.
 */
module CircularBuffers {
  import opened Bits
  import opened Delimiters
  import opened RingGeometry
  import opened Receivers

  const DEFAULT_CAPACITY: uint32 := 1024

  /** The capacity a constructor settles on: the argument, unless its bits say otherwise. */
  function GetCapacity(c: uint32): uint32 {
    if BitAnd(c, (c - 1) % TWO_32) != 0 then DEFAULT_CAPACITY else c
  }

  lemma CapacityIsPowerOfTwo(c: uint32)
    requires c > 0
    ensures IsPowerOfTwo(GetCapacity(c))
    ensures GetCapacity(c) == c <==> IsPowerOfTwo(c)
  {
    PowerOfTwoTest(c);
    assert IsPowerOfTwo(DEFAULT_CAPACITY);
  }

  /**
   The constructor allocates its argument's worth of cells but masks with the corrected
   capacity. Every cursor then selects an allocated cell exactly for powers of two and for
   arguments of at least the default capacity; any other argument (3, say) is unsafe.
   */
  lemma AllocationCoversMaskExactlyWhen(c: uint32)
    requires c > 0
    ensures (forall i: uint64 :: Mask(GetCapacity(c), i) < c) <==> (IsPowerOfTwo(c) || c >= DEFAULT_CAPACITY)
  {
    CapacityIsPowerOfTwo(c);
    if !IsPowerOfTwo(c) && c < DEFAULT_CAPACITY {
      MaskIsMod(DEFAULT_CAPACITY - 1, DEFAULT_CAPACITY);
      assert Mask(GetCapacity(c), DEFAULT_CAPACITY - 1) == DEFAULT_CAPACITY - 1;
    }
  }

  /** What a callback stores in a window that follows the live bytes is appended to them. */
  lemma FillWindow(cells: seq<byte>, capacity: nat, a: nat, size: nat, v: Window, chunk: seq<byte>)
    requires a < capacity <= |cells| && |chunk| <= v.len && size + v.len <= capacity && v.at + v.len <= capacity
    requires Cells(v) == FreeCells(capacity, a, size, v.len)
    ensures Live(Splice(cells, v.at, chunk), capacity, a, size + |chunk|) == Live(cells, capacity, a, size) + chunk
  {
    var cells' := Splice(cells, v.at, chunk);
    forall j | 0 <= j < |chunk| ensures Lands(capacity, a, size, v.at, j) {
      assert Cells(v)[j] == FreeCells(capacity, a, size, v.len)[j];
    }
    forall i | 0 <= i < size ensures cells'[Cell(capacity, a, i)] == cells[Cell(capacity, a, i)] {
      SplicedCell(cells, capacity, a, size, v.at, chunk, i);
    }
    LiveFrame(cells, cells', capacity, a, size, size + |chunk|);
    var live := Live(cells', capacity, a, size + |chunk|);
    forall j | 0 <= j < |chunk| ensures live[size..][j] == chunk[j] {
      assert Lands(capacity, a, size, v.at, j);
    }
    assert live == live[..size] + live[size..];
  }

  /** The `j`-th byte stored at `at` is the `j`-th behind the live ones. */
  predicate Lands(capacity: nat, a: nat, size: nat, at: nat, j: nat)
    requires a < capacity && size + j <= capacity
  {
    at + j == Cell(capacity, a, size + j)
  }

  /** A live cell is none of the cells behind the live ones. */
  lemma SplicedCell(cells: seq<byte>, capacity: nat, a: nat, size: nat, at: nat, chunk: seq<byte>, i: nat)
    requires a < capacity <= |cells| && i < size && size + |chunk| <= capacity && at + |chunk| <= |cells|
    requires chunk != [] ==> Lands(capacity, a, size, at, 0) && Lands(capacity, a, size, at, |chunk| - 1)
    ensures Splice(cells, at, chunk)[Cell(capacity, a, i)] == cells[Cell(capacity, a, i)]
  {
  }

  /** A chunk at the start of the array behind a split free space never touches live bytes. */
  lemma SecondKeepsLive(cells: seq<byte>, capacity: nat, a: nat, size: nat, k: nat, chunk: seq<byte>)
    requires a < capacity <= |cells| && size < capacity && Split(a, Cell(capacity, a, size))
    requires |chunk| <= a && size + k + |chunk| <= capacity
    ensures Live(Splice(cells, 0, chunk), capacity, a, size + k + |chunk|)[..size]
         == Live(cells, capacity, a, size + k)[..size]
  {
    var cells' := Splice(cells, 0, chunk);
    forall i | 0 <= i < size ensures cells'[Cell(capacity, a, i)] == cells[Cell(capacity, a, i)] {
    }
    LiveFrame(cells, cells', capacity, a, size, size + k + |chunk|);
    LiveFrame(cells, cells, capacity, a, size, size + k);
  }

  /** Contents after `first` went to the first window and `second` to the start of the array. */
  ghost function AfterTwoCalls(cells: seq<byte>, capacity: nat, a: nat, size: nat, b: nat,
                               first: seq<byte>, second: seq<byte>): seq<byte>
    requires a < capacity <= |cells| && size + |first| + |second| <= capacity && b + |first| <= capacity
  {
    Live(Splice(Splice(cells, b, first), 0, second), capacity, a, size + |first| + |second|)
  }

  /** Live bytes stay; both chunks follow in order if the first filled its window or the second is empty. */
  lemma FillBothWindows(cells: seq<byte>, capacity: nat, a: nat, size: nat, n: nat, first: seq<byte>, second: seq<byte>)
    requires WritePlan(capacity, a, size, n) && capacity <= |cells|
    requires |first| <= FirstWindow(capacity, a, Cell(capacity, a, size), n).len && |first| <= n
    requires if Split(a, Cell(capacity, a, size)) then |second| <= SecondWindow(a, n, |first|).len else second == []
    ensures var before := Live(cells, capacity, a, size);
      var after := AfterTwoCalls(cells, capacity, a, size, Cell(capacity, a, size), first, second);
      && before <= after
      && (|first| == FirstWindow(capacity, a, Cell(capacity, a, size), n).len || second == []
          ==> after == before + (first + second))
  {
    hide Splice, Live;
    var before := Live(cells, capacity, a, size);
    var v := FirstWindow(capacity, a, Cell(capacity, a, size), n);
    var cells1 := Splice(cells, v.at, first);
    FirstWindowInRingOrder(capacity, a, size, n);
    FillWindow(cells, capacity, a, size, v, first);
    assert (before + first)[..size] == before;
    if second == [] {
      SpliceNothing(cells1, 0);
    } else {
      SecondKeepsLive(cells1, capacity, a, size, |first|, second);
      if |first| == v.len {
        SecondWindowContinues(capacity, a, size, n, |first|);
        FillWindow(cells1, capacity, a, size + |first|, SecondWindow(a, n, |first|), second);
        assert before + first + second == before + (first + second);
      }
    }
  }

  /** What two callback runs can deliver: no more than the windows they are offered. */
  ghost predicate Deliverable(capacity: nat, a: nat, size: nat, n: nat, first: seq<byte>, second: seq<byte>)
    requires WritePlan(capacity, a, size, n)
  {
    && |first| <= FirstWindow(capacity, a, Cell(capacity, a, size), n).len && |first| <= n
    && if Split(a, Cell(capacity, a, size)) then |second| <= SecondWindow(a, n, |first|).len else second == []
  }

  /** However the callback fills its windows, the contents grow by exactly what it delivered. */
  ghost predicate NeverLeavesGap(cells: seq<byte>, capacity: nat, a: nat, size: nat, n: nat)
    requires WritePlan(capacity, a, size, n) && capacity <= |cells|
  {
    forall first, second :: Deliverable(capacity, a, size, n, first, second) ==>
      AfterTwoCalls(cells, capacity, a, size, Cell(capacity, a, size), first, second)
        == Live(cells, capacity, a, size) + (first + second)
  }

  /**
   A callback write is an append, whatever the callback does, exactly when the end of the
   array does not split the free space, or nothing is asked for.
   */
  lemma WriteIsAppendExactlyWhen(cells: seq<byte>, capacity: nat, a: nat, size: nat, n: nat)
    requires WritePlan(capacity, a, size, n) && capacity <= |cells|
    ensures NeverLeavesGap(cells, capacity, a, size, n) <==> n == 0 || !Split(a, Cell(capacity, a, size))
  {
    if n == 0 || !Split(a, Cell(capacity, a, size)) {
      forall first, second | Deliverable(capacity, a, size, n, first, second)
        ensures AfterTwoCalls(cells, capacity, a, size, Cell(capacity, a, size), first, second)
             == Live(cells, capacity, a, size) + (first + second)
      {
        FillBothWindows(cells, capacity, a, size, n, first, second);
      }
    } else {
      var x := GapHappens(cells, capacity, a, size, n);
    }
  }

  /** Nothing in the first window and one byte in the second: the contents grow by an old byte instead. */
  lemma GapHappens(cells: seq<byte>, capacity: nat, a: nat, size: nat, n: nat) returns (x: byte)
    requires WritePlan(capacity, a, size, n) && capacity <= |cells|
    requires n > 0 && Split(a, Cell(capacity, a, size))
    ensures Deliverable(capacity, a, size, n, [], [x])
    ensures AfterTwoCalls(cells, capacity, a, size, Cell(capacity, a, size), [], [x])
         != Live(cells, capacity, a, size) + ([] + [x])
  {
    var b := Cell(capacity, a, size);
    x := if cells[b] == 0 then 1 else 0;
    assert AfterTwoCalls(cells, capacity, a, size, b, [], [x])[size] == cells[b];
    assert (Live(cells, capacity, a, size) + ([] + [x]))[size] == x;
  }

  // ---------- the class ----------

  /** The array, the masked cursors, and the size of the contents before a callback write. */
  datatype Place = Place(cells: seq<byte>, capacity: nat, a: nat, b: nat, size: nat)

  /** The bytes that became readable are those the runs of the callback left in the cells they were counted for. */
  ghost predicate LandedAs(p: Place, chunk: seq<byte>, made: seq<Call>, landed: seq<byte>) {
    if made == [] then chunk == [] && landed == []
    else
      var k := Got(made[0]);
      && p.a < p.capacity <= |p.cells| && k <= |chunk| && p.b + k <= p.capacity && p.size + |chunk| <= p.capacity
      && landed == AfterTwoCalls(p.cells, p.capacity, p.a, p.size, p.b, chunk[..k], chunk[k..])[p.size..]
  }

  /** Nothing was left between two chunks: at most one call, a filled first window, or an empty second call. */
  predicate Seamless(calls: seq<Call>) {
    |calls| <= 1 || Got(calls[0]) == calls[0].len || Got(calls[1]) == 0
  }

  /** The calls of one callback write: the first window, and the second if space is split and bytes are still wanted. */
  predicate Planned(calls: seq<Call>, capacity: nat, a: nat, b: nat, n: nat, mayBlock: bool)
    requires b < capacity
  {
    && calls != []
    && Offered(calls[0], FirstWindow(capacity, a, b, n), mayBlock)
    && if Split(a, b) && Got(calls[0]) < n
       then |calls| == 2 && Offered(calls[1], SecondWindow(a, n, Got(calls[0])), false)
       else |calls| == 1
  }

  predicate Offered(c: Call, v: Window, mayBlock: bool) {
    c.at == v.at && c.len == v.len && c.blocking == mayBlock && Got(c) <= v.len
  }

  /**
   The first call is offered the free cells up to `n` or the end of the array, and a second one
   is made, at the start of the array, whenever the first stored fewer than `n` bytes and free
   cells are left there: also when it did not fill its window.
   */
  lemma PlannedCallsAre(calls: seq<Call>, capacity: nat, a: nat, b: nat, n: nat, mayBlock: bool)
    requires b < capacity && Planned(calls, capacity, a, b, n, mayBlock)
    ensures calls != [] && calls[0].at == b && calls[0].blocking == mayBlock
    ensures calls[0].len == if 0 < a <= b && capacity - b < n then capacity - b else n
    ensures |calls| == if 0 < a <= b && Got(calls[0]) < n then 2 else 1
    ensures |calls| == 2 ==>
      && calls[1].at == 0 && !calls[1].blocking
      && calls[1].len == if a < n - Got(calls[0]) then a else n - Got(calls[0])
  {
  }

  /** Calls that fill their windows store all that was wanted. */
  lemma FilledCallsTakeAll(calls: seq<Call>, capacity: nat, a: nat, size: nat, n: nat, mayBlock: bool)
    requires WritePlan(capacity, a, size, n) && Planned(calls, capacity, a, Cell(capacity, a, size), n, mayBlock)
    requires Filled(calls)
    ensures Total(calls) == n
  {
    TotalOfCalls(calls);
  }

  /** No planned window is empty when bytes are wanted, and only the first call may block. */
  lemma PlannedCallsAreProper(calls: seq<Call>, capacity: nat, a: nat, size: nat, n: nat, mayBlock: bool)
    requires WritePlan(capacity, a, size, n) && n > 0
    requires Planned(calls, capacity, a, Cell(capacity, a, size), n, mayBlock)
    ensures |calls| <= 2 && Total(calls) <= n && AskedForBytes(calls)
    ensures forall i :: 0 <= i < |calls| ==> calls[i].blocking == (mayBlock && i == 0)
  {
    TotalOfCalls(calls);
  }

  class CircularBuf {
    const buf: array<byte>
    const capacity: uint32
    var r: uint64
    var w: uint64

    ghost predicate Valid()
      reads this
    {
      && IsPowerOfTwo(capacity)
      && capacity <= buf.Length
      && Distance(r, w) <= capacity
    }

    /** The queued bytes, oldest first. */
    ghost function Contents(): (s: seq<byte>)
      requires Valid()
      reads this, buf
      ensures |s| == Distance(r, w)
    {
      Live(buf[..], capacity, Mask(capacity, r), Distance(r, w))
    }

    constructor (c: uint32)
      requires IsPowerOfTwo(c) || c >= DEFAULT_CAPACITY
      ensures Valid() && fresh(buf) && Contents() == []
      ensures capacity == if IsPowerOfTwo(c) then c else DEFAULT_CAPACITY
    {
      CapacityIsPowerOfTwo(c);
      r, w := 0, 0;
      capacity := GetCapacity(c);
      buf := new byte[c];
    }

    function Size(): (n: uint32)
      requires Valid()
      reads this, buf
      ensures n == |Contents()|
    {
      Distance(r, w) % TWO_32
    }

    function Space(): (n: uint32)
      requires Valid()
      reads this, buf
      ensures n == capacity - |Contents()|
    {
      (capacity - Size()) % TWO_32
    }

    predicate Full()
      requires Valid()
      reads this, buf
      ensures Full() <==> |Contents()| == capacity
    {
      capacity == Size()
    }

    predicate Empty()
      requires Valid()
      reads this, buf
      ensures Empty() <==> Contents() == []
    {
      r == w
    }

    method Push(b: byte) returns (ok: bool)
      requires Valid()
      modifies this`w, buf
      ensures Valid() && ok == (|old(Contents())| < capacity)
      ensures Contents() == old(Contents()) + if ok then [b] else []
    {
      if Full() {
        return false;
      }
      ghost var a, n := Mask(capacity, r), Distance(r, w);
      MaskOfAdvance(capacity, r, n);
      LivePush(buf[..], capacity, a, n, b);
      buf[Mask(capacity, w)] := b;
      w := Advance(w, 1);
      assert w == Advance(r, n + 1);
      assert buf[..] == old(buf[..])[Cell(capacity, a, n) := b];
      return true;
    }

    method Shift() returns (ok: bool, b: byte)
      requires Valid()
      modifies this`r
      ensures Valid() && ok == (old(Contents()) != [])
      ensures ok ==> b == old(Contents())[0] && Contents() == old(Contents())[1..]
      ensures !ok ==> Contents() == []
    {
      if Empty() {
        return false, 0;
      }
      ghost var a, n := Mask(capacity, r), Distance(r, w);
      MaskOfAdvance(capacity, r, 1);
      LiveDrop(buf[..], capacity, a, n, 1);
      b := buf[Mask(capacity, r)];
      r := Advance(r, 1);
      return true, b;
    }

    /** Take at most `lim` bytes from the front. */
    method Read(lim: uint32) returns (data: seq<byte>)
      requires Valid()
      modifies this`r
      ensures Valid()
      ensures var n := Min(lim, |old(Contents())|);
        data == old(Contents())[..n] && Contents() == old(Contents())[n..]
    {
      ghost var s := Contents();
      var n := if lim > Size() then Size() else lim;
      data := seq(n, _ => 0);
      var i := 0;
      while i < n
        invariant i <= n == |data| <= |s| && Valid()
        invariant data[..i] == s[..i] && Contents() == s[i..]
      {
        var ok, b := Shift();
        i := i + 1;
        if !ok {
          break;
        }
        data := data[i - 1 := b];
      }
      data := data[..i];
    }

    lemma StoreNext(data: seq<byte>, s: seq<byte>, i: nat)
      requires i < |s| == |data| && data[..i] == s[..i]
      ensures data[i := s[i]][..i + 1] == s[..i + 1]
    {
    }

    /** Take everything up to and including the first `delim`, or everything. */
    method ReadTo(delim: byte) returns (data: seq<byte>)
      requires Valid()
      modifies this`r
      ensures Valid()
      ensures var n := ThroughFirst(old(Contents()), delim);
        data == old(Contents())[..n] && Contents() == old(Contents())[n..]
      ensures if delim in old(Contents()) then data != [] && data[|data| - 1] == delim && delim !in data[..|data| - 1]
              else data == old(Contents())
    {
      ghost var s := Contents();
      data := seq(Size(), _ => 0);
      var i, success, found := 0, true, false;
      while success && !found
        invariant Valid() && |data| == |s|
        invariant success ==> i <= |s| && data[..i] == s[..i] && Contents() == s[i..]
        invariant success && !found ==> delim !in s[..i]
        invariant found ==> success && 0 < i && s[i - 1] == delim && delim !in s[..i - 1]
        invariant !success ==> i == |s| + 1 && data == s && Contents() == [] && delim !in s
        decreases success, !found, |s| - i
      {
        var b;
        success, b := Shift();
        i := i + 1;
        if success {
          StoreNext(data, s, i - 1);
          data := data[i - 1 := b];
          found := b == delim;
          assert s[..i] == s[..i - 1] + [b];
        } else {
          assert data[..|s|] == data && s[..|s|] == s;
        }
      }
      IndexOfUnique(s, delim, i - 1);
      data := data[..if success then i else i - 1];
      assert data == s[..|data|] && (success ==> delim in s && data[..|data| - 1] == s[..i - 1]);
    }

    /** The overload for delimiter strings, with the search it really performs. */
    method ReadToString(delim: seq<byte>) returns (data: seq<byte>)
      requires Valid()
      modifies this`r
      ensures Valid()
      ensures var n := StringTaken(old(Contents()), 0, delim);
        data == old(Contents())[..n] && Contents() == old(Contents())[n..]
    {
      hide Live, Mask, Distance, StringTest, IsPowerOfTwo;
      ghost var s := Contents();
      ghost var taken := StringTaken(s, 0, delim);
      var lim := Size();
      data := seq(Size(), _ => 0);
      var i, success, found := 0, true, false;
      while success && !found
        invariant Valid() && lim == |data| == |s|
        invariant success ==> i <= |s| && data[..i] == s[..i] && Contents() == s[i..]
        invariant success ==> forall k :: i <= k < |s| ==> data[k] == 0
        invariant success && !found ==> taken == StringTaken(s, i, delim)
        invariant found ==> success && 0 < i && taken == i
        invariant !success ==> i == |s| + 1 && data == s && Contents() == [] && taken == |s|
        decreases success, !found, |s| - i
      {
        var b;
        success, b := Shift();
        i := i + 1;
        if success {
          StoreNext(data, s, i - 1);
          data := data[i - 1 := b];
          found := i - 1 + |delim| <= lim && data[i - 1..i - 1 + |delim|] == delim;
          WindowIsStringTest(data, i - 1, s[i - 1], delim);
        } else {
          assert data[..|s|] == data && s[..|s|] == s;
        }
      }
      data := data[..if success then i else i - 1];
    }

    /**
     Pop the suffix that starts at `offset`. The read cursor is saved in 32 bits; the rebased
     cursors still select the cells of the prefix.
     */
    method ReadFrom(offset: uint32) returns (data: seq<byte>)
      requires Valid()
      modifies this`r, this`w
      ensures Valid()
      ensures var n := Min(offset, |old(Contents())|);
        data == old(Contents())[n..] && Contents() == old(Contents())[..n]
    {
      if offset >= Size() {
        return [];
      }
      ghost var s, a, n := Contents(), Mask(capacity, r), Distance(r, w);
      MaskOfTruncated(capacity, r);
      MaskOfAdvance(capacity, r, offset);
      LiveDrop(buf[..], capacity, a, n, offset);
      var hold: uint32 := r % TWO_32;
      r := Advance(r, offset);
      assert Contents() == s[offset..];
      data := Read(0xFFFF_FFFF);
      r := hold;
      w := Advance(r, offset);
      LiveFrame(buf[..], buf[..], capacity, a, offset, n);
    }

    /** Append as many of the bytes as there is room for. */
    method Write(data: seq<byte>) returns (n: nat)
      requires Valid()
      modifies this`w, buf
      ensures Valid()
      ensures n == Min(|data|, capacity - |old(Contents())|)
      ensures Contents() == old(Contents()) + data[..n]
    {
      n := 0;
      var room := true;
      while n < |data| && room
        invariant Valid() && n <= |data|
        invariant Contents() == old(Contents()) + data[..n]
        invariant !room ==> n < |data| && n == capacity - |old(Contents())|
        decreases room, |data| - n
      {
        room := Push(data[n]);
        if room {
          n := n + 1;
        }
      }
    }

    method Clear()
      requires Valid()
      modifies this`r, this`w, buf
      ensures Valid() && Contents() == []
    {
      forall i | 0 <= i < capacity {
        buf[i] := 0;
      }
      r, w := 0, 0;
    }

    /** Run the callback on the one or two windows of free cells. */
    method Offer(rx: Receiver, readCell: nat, writeCell: nat, n: nat)
      returns (total: nat, ghost first: seq<byte>, ghost second: seq<byte>, ghost made: seq<Call>)
      requires readCell < capacity && writeCell < capacity <= buf.Length
      requires !Split(readCell, writeCell) ==> writeCell + n <= capacity
      modifies buf, rx`pending, rx`taken, rx`calls, rx`dirty, rx`fd, rx`listening
      ensures Planned(made, capacity, readCell, writeCell, n, !rx.nonblocking && !old(rx.dirty))
      ensures |first| == Got(made[0]) && |second| == if |made| == 2 then Got(made[1]) else 0
      ensures total == |first| + |second| <= n && writeCell + |first| <= capacity
      ensures |first| <= FirstWindow(capacity, readCell, writeCell, n).len && |first| <= n && 1 <= |made| <= 2
      ensures if Split(readCell, writeCell) then |second| <= SecondWindow(readCell, n, |first|).len else second == []
      ensures Seamless(made) ==> |first| == FirstWindow(capacity, readCell, writeCell, n).len || second == []
      ensures buf[..] == Splice(Splice(old(buf[..]), writeCell, first), 0, second)
      ensures Consumed(old(rx.In()), first + second, made, rx.In())
    {
      hide Consumed;
      second := [];
      ghost var call, s0 := *, rx.In();
      if writeCell < readCell || readCell == 0 {
        total, first, call := rx.Callback(buf, writeCell, n);
        made := [call];
        assert first + second == first;
        SpliceNothing(buf[..], 0);
        return;
      }
      total, first, call := rx.Callback(buf, writeCell, Min(n, capacity - writeCell));
      made := [call];
      if total < n {
        var more;
        ghost var s1, c := rx.In(), call;
        more, second, call := rx.Callback(buf, 0, Min(n - total, readCell));
        ConsumedTwice(s0, first, c, s1, second, call, rx.In());
        made := [c, call];
        total := total + more;
      } else {
        SpliceNothing(buf[..], 0);
        assert first + second == first;
      }
    }

    /**
     Let the receive callback write straight into free cells, in one or two windows. The
     counted bytes follow the old contents; they are the delivered ones in order whenever
     the calls were seamless, and the calls are those planned for the two cursors.
     */
    method WriteVia(rx: Receiver, limit: uint32)
      returns (total: uint32, ghost chunk: seq<byte>, ghost made: seq<Call>)
      requires Valid()
      modifies this`w, buf, rx`pending, rx`taken, rx`calls, rx`dirty, rx`fd, rx`listening
      ensures Valid()
      ensures |chunk| == total == Total(made) <= Min(limit, capacity - |old(Contents())|)
      ensures Consumed(old(rx.In()), chunk, made, rx.In())
      ensures |Contents()| == |old(Contents())| + total && old(Contents()) <= Contents()
      ensures Seamless(made) ==> Contents() == old(Contents()) + chunk
      ensures made != [] ==>
        LandedIn(old(buf[..]), Mask(capacity, old(r)), Mask(capacity, old(w)), |old(Contents())|, chunk, made)
      ensures LandedAs(old(Where()), chunk, made, Contents()[|old(Contents())|..])
      ensures made == [] <==> |old(Contents())| == capacity
      ensures made != [] ==>
        Planned(made, capacity, Mask(capacity, old(r)), Mask(capacity, old(w)),
                Min(limit, capacity - |old(Contents())|), !rx.nonblocking && !old(rx.dirty))
    {
      hide Live, Splice, Mask, IsPowerOfTwo, Planned, Seamless, FirstWindow, SecondWindow, HungUp;
      if Full() {
        ConsumedNothing(rx.In());
        return 0, [], [];
      }
      ghost var a, size, cells := Mask(capacity, r), Distance(r, w), buf[..];
      var readCell, writeCell := Mask(capacity, r), Mask(capacity, w);
      var n := Min(limit, Space());
      MaskOfAdvance(capacity, r, size);
      ghost var first, second;
      total, first, second, made := Offer(rx, readCell, writeCell, n);
      chunk := first + second;
      assert chunk[..|first|] == first && chunk[|first|..] == second;
      w := Advance(w, total);
      AdvancedBy(total, size);
      FillBothWindows(cells, capacity, a, size, n, first, second);
    }

    ghost function Where(): Place
      requires Valid()
      reads this, buf
    {
      Place(buf[..], capacity, Mask(capacity, r), Mask(capacity, w), |Contents()|)
    }

    /** Even with a gap: the contents are the old cells with both chunks written over their windows. */
    ghost predicate LandedIn(cells: seq<byte>, a: nat, b: nat, size: nat, chunk: seq<byte>, made: seq<Call>)
      requires Valid() && made != []
      reads this, buf
    {
      var k := Got(made[0]);
      && a < capacity <= |cells| && k <= |chunk| && b + k <= capacity && size + |chunk| <= capacity
      && Contents() == AfterTwoCalls(cells, capacity, a, size, b, chunk[..k], chunk[k..])
    }

    lemma WriteCell()
      requires Valid()
      ensures Mask(capacity, w) == Cell(capacity, Mask(capacity, r), |Contents()|)
    {
      MaskOfAdvance(capacity, r, Distance(r, w));
    }

    /** The contents once the write cursor has moved past `total` bytes stored behind `size` live ones. */
    lemma AdvancedBy(total: nat, size: nat)
      requires IsPowerOfTwo(capacity) && capacity <= buf.Length
      requires size + total <= capacity && w == Advance(Advance(r, size), total)
      ensures Valid() && Contents() == Live(buf[..], capacity, Mask(capacity, r), size + total)
    {
    }
  }
}
