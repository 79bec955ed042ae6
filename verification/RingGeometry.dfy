/**
 Where the bytes of a ring live, as functions of the two free-running cursors.

 `r` and `w` count modulo 2^64 and are masked to a cell number only when a cell is
 touched. Everything below speaks of cells relative to the masked read cursor, so that
 cursors may wrap, or be replaced by others with the same residue, unnoticed.
 */
module RingGeometry {
  import opened Bits

  /** `w - r` in unsigned 64-bit arithmetic: the write cursor may have wrapped when the read one has not. */
  function Distance(r: uint64, w: uint64): uint64 {
    if r <= w then w - r else w - r + TWO_64
  }

  /** `cursor + k` in unsigned 64-bit arithmetic. */
  function Advance(cursor: uint64, k: uint64): uint64 {
    if cursor + k < TWO_64 then cursor + k else cursor + k - TWO_64
  }

  /** The cell a cursor selects: a bitwise mask, as the program computes it. */
  function Mask(capacity: uint32, i: uint64): (cell: uint32)
    requires capacity > 0
    ensures cell < capacity
  {
    AndBelow(i, capacity - 1);
    BitAnd(i, capacity - 1)
  }

  lemma {:induction false} AndBelow(a: nat, b: nat)
    ensures BitAnd(a, b) <= b
  {
    if a > 0 && b > 0 {
      AndBelow(a / 2, b / 2);
    }
  }

  /** The cell `i` places behind cell `a`, going around the array at most once. */
  function Cell(capacity: nat, a: nat, i: nat): (cell: nat)
    requires a < capacity && i <= capacity
    ensures cell < capacity
  {
    if a + i < capacity then a + i else a + i - capacity
  }

  /** The `n` bytes from cell `a` on, in ring order. */
  ghost function Live(cells: seq<byte>, capacity: nat, a: nat, n: nat): (s: seq<byte>)
    requires a < capacity <= |cells| && n <= capacity
    ensures |s| == n
  {
    seq(n, i requires 0 <= i < n => cells[Cell(capacity, a, i)])
  }

  /** Masking an advanced cursor, wrapped at 2^64 or not, moves the cell by the same amount. */
  lemma MaskOfAdvance(capacity: uint32, r: uint64, k: uint64)
    requires IsPowerOfTwo(capacity) && k <= capacity
    ensures Mask(capacity, Advance(r, k)) == Cell(capacity, Mask(capacity, r), k)
  {
    MaskIsMod(r, capacity);
    MaskIsMod(Advance(r, k), capacity);
    ModOfSumByCases(r, k, capacity);
    if r + k >= TWO_64 {
      WrapKeepsResidue(r + k, capacity);
    }
  }

  /** A cursor saved in 32 bits selects the same cell, because the capacity divides 2^32. */
  lemma MaskOfTruncated(capacity: uint32, r: uint64)
    requires IsPowerOfTwo(capacity)
    ensures Mask(capacity, r % TWO_32) == Mask(capacity, r)
  {
    MaskIsMod(r, capacity);
    MaskIsMod(r % TWO_32, capacity);
    WordSizesArePowers();
    PowersDivide(capacity, TWO_32);
    ModOfMod(r, capacity, TWO_32);
  }

  /** Skipping `k` bytes drops the first `k` bytes. */
  lemma LiveDrop(cells: seq<byte>, capacity: nat, a: nat, n: nat, k: nat)
    requires a < capacity <= |cells| && k <= n <= capacity
    ensures Live(cells, capacity, Cell(capacity, a, k), n - k) == Live(cells, capacity, a, n)[k..]
  {
    var dropped := Live(cells, capacity, a, n)[k..];
    forall i | 0 <= i < n - k ensures Live(cells, capacity, Cell(capacity, a, k), n - k)[i] == dropped[i] {
      assert Cell(capacity, Cell(capacity, a, k), i) == Cell(capacity, a, k + i);
    }
  }

  /** Live bytes survive a change of the array that leaves their cells alone. */
  lemma LiveFrame(cells: seq<byte>, cells': seq<byte>, capacity: nat, a: nat, n: nat, m: nat)
    requires a < capacity <= |cells| && |cells'| == |cells| && n <= m <= capacity
    requires forall i :: 0 <= i < n ==> cells'[Cell(capacity, a, i)] == cells[Cell(capacity, a, i)]
    ensures Live(cells', capacity, a, m)[..n] == Live(cells, capacity, a, n)
  {
  }

  /** Writing one byte behind the live ones appends it. */
  lemma LivePush(cells: seq<byte>, capacity: nat, a: nat, n: nat, b: byte)
    requires a < capacity <= |cells| && n < capacity
    ensures Live(cells[Cell(capacity, a, n) := b], capacity, a, n + 1) == Live(cells, capacity, a, n) + [b]
  {
  }

  // ---------- the windows a callback write offers ----------

  /** A stretch of the array handed to a callback. */
  datatype Window = Window(at: nat, len: nat)

  function Min(a: nat, b: nat): nat {
    if a < b then a else b
  }

  /** The free space is split by the end of the array; `a` and `b` are the masked cursors. */
  predicate Split(a: nat, b: nat) {
    !(b < a || a == 0)
  }

  function FirstWindow(capacity: nat, a: nat, b: nat, n: nat): Window
    requires b < capacity
  {
    if Split(a, b) then Window(b, Min(n, capacity - b)) else Window(b, n)
  }

  /** What the second call offers, given that the first one took `got` bytes. */
  function SecondWindow(a: nat, n: nat, got: nat): Window
    requires got <= n
  {
    Window(0, Min(n - got, a))
  }

  /** The next `k` free cells in ring order, behind `size` live bytes. */
  function FreeCells(capacity: nat, a: nat, size: nat, k: nat): (s: seq<int>)
    requires a < capacity && size + k <= capacity
    ensures |s| == k
    ensures forall j :: 0 <= j < k ==> s[j] == Cell(capacity, a, size + j)
  {
    seq(k, j requires 0 <= j < k => Cell(capacity, a, size + j))
  }

  function Cells(v: Window): (s: seq<int>)
    ensures |s| == v.len
    ensures forall j :: 0 <= j < v.len ==> s[j] == v.at + j
  {
    seq(v.len, j requires 0 <= j < v.len => v.at + j)
  }

  /** The cells that receive the delivered bytes, in order of delivery. */
  function Landing(capacity: nat, a: nat, b: nat, n: nat, got: nat, more: nat): seq<int>
    requires b < capacity && got <= n
  {
    Cells(Window(FirstWindow(capacity, a, b, n).at, got)) + Cells(Window(SecondWindow(a, n, got).at, more))
  }

  ghost predicate WritePlan(capacity: nat, a: nat, size: nat, n: nat) {
    a < capacity && size < capacity && n <= capacity - size
  }

  /** Both windows lie inside the array and hold no live byte, however much the first call took. */
  lemma WindowsAreFree(capacity: nat, a: nat, size: nat, n: nat, got: nat, i: nat)
    requires WritePlan(capacity, a, size, n) && i < size
    requires got <= FirstWindow(capacity, a, Cell(capacity, a, size), n).len
    ensures var b := Cell(capacity, a, size);
      var first := FirstWindow(capacity, a, b, n);
      var second := SecondWindow(a, n, got);
      && first.at + first.len <= capacity
      && Cell(capacity, a, i) !in Cells(first)
      && (Split(a, b) ==> second.at + second.len <= capacity && Cell(capacity, a, i) !in Cells(second))
  {
  }

  /** The first window is the run of free cells that directly follows the live bytes. */
  lemma FirstWindowInRingOrder(capacity: nat, a: nat, size: nat, n: nat)
    requires WritePlan(capacity, a, size, n)
    ensures var first := FirstWindow(capacity, a, Cell(capacity, a, size), n);
      first.len <= n && Cells(first) == FreeCells(capacity, a, size, first.len)
  {
  }

  /** After a filled first window, the second continues the free cells where the first stopped. */
  lemma SecondWindowContinues(capacity: nat, a: nat, size: nat, n: nat, got: nat)
    requires WritePlan(capacity, a, size, n) && Split(a, Cell(capacity, a, size))
    requires got == FirstWindow(capacity, a, Cell(capacity, a, size), n).len
    ensures got <= n && size + got + SecondWindow(a, n, got).len <= capacity
    ensures Cells(SecondWindow(a, n, got)) == FreeCells(capacity, a, size + got, SecondWindow(a, n, got).len)
  {
  }

  /**
   Unsplit free space is offered whole; split free space is offered whole by a filled first
   window and the second one: the first `n` free cells in ring order.
   */
  lemma WindowsInRingOrder(capacity: nat, a: nat, size: nat, n: nat)
    requires WritePlan(capacity, a, size, n)
    ensures var b := Cell(capacity, a, size);
      var first := FirstWindow(capacity, a, b, n);
      && first.len <= n
      && (!Split(a, b) ==> Cells(first) == FreeCells(capacity, a, size, n))
      && (Split(a, b) ==> Cells(first) + Cells(SecondWindow(a, n, first.len)) == FreeCells(capacity, a, size, n))
  {
  }

  /**
   The bytes of a two-call write land on consecutive free cells exactly when the first call
   filled its window or the second one delivered nothing. In every other case the second
   chunk lands at the start of the array and leaves a gap behind the first.
   */
  lemma ContiguousExactlyWhen(capacity: nat, a: nat, size: nat, n: nat, got: nat, more: nat)
    requires WritePlan(capacity, a, size, n)
    requires Split(a, Cell(capacity, a, size))
    requires got <= FirstWindow(capacity, a, Cell(capacity, a, size), n).len
    requires more <= SecondWindow(a, n, got).len
    ensures Landing(capacity, a, Cell(capacity, a, size), n, got, more) == FreeCells(capacity, a, size, got + more)
       <==> got == FirstWindow(capacity, a, Cell(capacity, a, size), n).len || more == 0
  {
    var b := Cell(capacity, a, size);
    var first := FirstWindow(capacity, a, b, n);
    var landing := Landing(capacity, a, b, n, got, more);
    var free := FreeCells(capacity, a, size, got + more);
    if got < first.len && more > 0 {
      assert landing[got] == 0 && free[got] == b + got;
    }
  }
}
