/**
 Machine integers and the bit tricks of the ring buffer.

 Cursors are unsigned 64-bit counters, capacities and sizes unsigned 32-bit ones;
 every wrap-around of the program is written out with `% TWO_64` or `% TWO_32`.
 */
module Bits {
  const TWO_32: int := 0x1_0000_0000
  const TWO_64: int := 0x1_0000_0000_0000_0000

  type uint32 = x: int | 0 <= x < 0x1_0000_0000
  type uint64 = x: int | 0 <= x < 0x1_0000_0000_0000_0000
  newtype byte = x: int | 0 <= x < 0x100

  /** The frame delimiter. */
  const NUL: byte := 0

  /** Bitwise conjunction of two unsigned numbers, least significant bit first. */
  function BitAnd(a: nat, b: nat): nat {
    if a == 0 || b == 0 then 0 else (a % 2) * (b % 2) + 2 * BitAnd(a / 2, b / 2)
  }

  predicate IsPowerOfTwo(c: nat) {
    c == 1 || (c > 0 && c % 2 == 0 && IsPowerOfTwo(c / 2))
  }

  /** Quotient and remainder are determined by `x == q * m + t` with `0 <= t < m`. */
  lemma DivModUnique(x: int, m: int, q: int, t: int)
    requires m > 0 && 0 <= t < m && x == q * m + t
    ensures x / m == q && x % m == t
  {
    var d := x / m - q;
    assert x == m * (x / m) + x % m;
    MulGap(m, d);
    assert m * d == m * (x / m) - m * q;
  }

  lemma MulGap(m: int, d: int)
    requires m > 0
    ensures d >= 1 ==> m * d >= m
    ensures d <= -1 ==> m * d <= -m
  {
  }

  lemma ModAddMultiple(x: int, m: int, k: int)
    requires m > 0
    ensures (x + k * m) % m == x % m
  {
    var q := x / m;
    assert x + k * m == (q + k) * m + x % m;
    DivModUnique(x + k * m, m, q + k, x % m);
  }

  /** Reducing modulo a multiple of `m` first does not change the residue modulo `m`. */
  lemma ModOfMod(x: int, m: int, big: int)
    requires m > 0 && big > 0 && big % m == 0
    ensures (x % big) % m == x % m
  {
    var k := big / m;
    var q := x / big;
    assert x == x % big + q * big;
    assert q * big == (q * k) * m by { assert big == k * m; }
    ModAddMultiple(x % big, m, q * k);
  }

  /** A sum with at most one wrap. */
  lemma ModOfSumByCases(x: nat, k: nat, m: nat)
    requires m > 0 && k <= m
    ensures (x + k) % m == if x % m + k < m then x % m + k else x % m + k - m
  {
    var t := x % m;
    assert x == (x / m) * m + t;
    if t + k < m {
      DivModUnique(x + k, m, x / m, t + k);
    } else {
      assert x + k == (x / m + 1) * m + (t + k - m);
      DivModUnique(x + k, m, x / m + 1, t + k - m);
    }
  }

  lemma ModOfDoubled(i: nat, m: nat)
    requires m > 0
    ensures i % (2 * m) == i % 2 + 2 * ((i / 2) % m)
  {
    var q := (i / 2) / m;
    var t := (i / 2) % m;
    assert i / 2 == q * m + t;
    assert i == q * (2 * m) + (i % 2 + 2 * t);
    DivModUnique(i, 2 * m, q, i % 2 + 2 * t);
  }

  /** Masking with `c - 1` is reduction modulo `c` exactly because `c` is a power of two. */
  lemma {:induction false} MaskIsMod(i: nat, c: nat)
    requires IsPowerOfTwo(c)
    ensures BitAnd(i, c - 1) == i % c
  {
    if c == 1 {
    } else if i == 0 {
    } else {
      MaskIsMod(i / 2, c / 2);
      assert (c - 1) / 2 == c / 2 - 1 && (c - 1) % 2 == 1;
      ModOfDoubled(i, c / 2);
    }
  }

  /** The test `c & (c - 1)` recognises the powers of two and nothing else. */
  lemma {:induction false} PowerOfTwoTest(c: nat)
    requires c > 0
    ensures BitAnd(c, c - 1) == 0 <==> IsPowerOfTwo(c)
  {
    if c == 1 {
    } else if c % 2 == 1 {
      assert (c - 1) / 2 == c / 2;
      AndSelf(c / 2);
    } else {
      assert (c - 1) / 2 == c / 2 - 1;
      PowerOfTwoTest(c / 2);
    }
  }

  lemma {:induction false} AndSelf(a: nat)
    ensures BitAnd(a, a) == a
  {
    if a > 0 {
      AndSelf(a / 2);
      assert (a % 2) * (a % 2) == a % 2 by {
        if a % 2 == 1 { assert 1 * 1 == 1; } else { assert 0 * 0 == 0; }
      }
    }
  }

  /** A power of two divides every larger one. */
  lemma {:induction false} PowersDivide(c: nat, d: nat)
    requires IsPowerOfTwo(c) && IsPowerOfTwo(d) && c <= d
    ensures d % c == 0
  {
    if c == 1 {
    } else {
      PowersDivide(c / 2, d / 2);
      var k := (d / 2) / (c / 2);
      assert d / 2 == k * (c / 2);
      assert d == k * c + 0;
      DivModUnique(d, c, k, 0);
    }
  }

  lemma WordSizesArePowers()
    ensures IsPowerOfTwo(TWO_32) && IsPowerOfTwo(TWO_64)
  {
    assert IsPowerOfTwo(0x10);
    PowersMultiply(0x10, 0x10);
    PowersMultiply(0x100, 0x100);
    PowersMultiply(0x1_0000, 0x1_0000);
    PowersMultiply(TWO_32, TWO_32);
  }

  lemma {:induction false} PowersMultiply(c: nat, d: nat)
    requires IsPowerOfTwo(c) && IsPowerOfTwo(d)
    ensures IsPowerOfTwo(c * d)
  {
    if c == 1 {
    } else {
      PowersMultiply(c / 2, d);
      assert c * d == 2 * (c / 2 * d);
      DivModUnique(c * d, 2, c / 2 * d, 0);
    }
  }

  /** Wrapping a 64-bit sum keeps its residue modulo every power of two that fits in a word. */
  lemma WrapKeepsResidue(x: nat, m: nat)
    requires IsPowerOfTwo(m) && m <= TWO_64 <= x
    ensures (x - TWO_64) % m == x % m
  {
    WordSizesArePowers();
    PowersDivide(m, TWO_64);
    ModSubtractMultiple(x, m, TWO_64);
  }

  lemma ModSubtractMultiple(x: nat, m: nat, big: nat)
    requires m > 0 && big % m == 0
    ensures (x - big) % m == x % m
  {
    assert big == (big / m) * m;
    ModAddMultiple(x, m, -(big / m));
  }
}
