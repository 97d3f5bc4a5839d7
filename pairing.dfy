/**
 * The vertex numbering of a generated level: vertex PairIndex(p, q, n) is the
 * crossing point of lines p and q out of n lines.  The pairs are laid out row
 * by row: row p holds the pairs (p, q) with p < q, in increasing q.
 */
module Pairing {
  import opened Int32

  /** Number of vertices of a level with n lines: one per unordered pair. */
  function VertexCount(n: int): int
  {
    n * (n - 1) / 2
  }

  /** A level with at least one line has a vertex count that is a valid array size, as
      long as the game's Int32 products n(n-1) and n(n-2) stay in range, which is exactly
      up to 46341 lines.  From 46342 lines on, n(n-1) wraps to a negative number (up to
      65536 lines at least), so the vertex array's size is negative. */
  lemma VertexCountNatural(n: int)
    requires n >= 1
    ensures VertexCount(n) >= 0
    ensures InInt32(n * (n - 1)) <==> n <= 46341
    ensures InInt32(n * (n - 2)) <==> n <= 46341
    ensures 46342 <= n <= 65536 ==> Wrap(n * (n - 1)) < 0
  {
    if n <= 46341 {
      ProductMonotone(n, n - 1, 46341, 46340);
      ProductMonotone(0, n - 1, n, n - 1);
      if n >= 2 {
        ProductMonotone(n, n - 2, 46341, 46339);
      }
    } else {
      ProductMonotone(46342, 46341, n, n - 1);
      ProductMonotone(46342, 46340, n, n - 2);
      if n <= 65536 {
        ProductMonotone(n, n - 1, 65536, 65535);
        WrapHigh(n * (n - 1));
      }
    }
  }

  lemma ProductMonotone(a: int, b: int, c: int, d: int)
    requires 0 <= a <= c && 0 <= b <= d
    ensures a * b <= c * d
  {
    assert a * b <= c * b;
  }

  /** A product between 2^31 and 2^32 wraps to a negative Int32. */
  lemma WrapHigh(x: int)
    requires MaxInt32 < x < Modulus
    ensures Wrap(x) == x - Modulus < 0
  {
    assert Modulus <= x - MinInt32 < 2 * Modulus;
  }

  /** Number of edges of a level with n lines: each line is cut into n - 2 segments. */
  function EdgeCount(n: int): int
  {
    n * (n - 2)
  }

  /** Index of the first pair of row p: rows 0 .. p-1 hold n-1, n-2, ..., n-p pairs. */
  function RowStart(p: nat, n: int): int
  {
    if p == 0 then 0 else RowStart(p - 1, n) + n - p
  }

  /** The closed form used by the game: twice the row start is p * (2n - p - 1),
      so the product is always even and the division by two is exact. */
  lemma {:induction false} RowStartClosedForm(p: nat, n: int)
    ensures 2 * RowStart(p, n) == p * (2 * n - p - 1)
  {
    if p > 0 {
      RowStartClosedForm(p - 1, n);
      calc {
        2 * RowStart(p, n);
        2 * RowStart(p - 1, n) + 2 * n - 2 * p;
        (p - 1) * (2 * n - p) + 2 * n - 2 * p;
        { assert (p - 1) * (2 * n - p) == p * (2 * n - p) - (2 * n - p); }
        p * (2 * n - p) - p;
        p * (2 * n - p - 1);
      }
    }
  }

  /** The product (2n - p - 1) * p computed by PairIndex is even. */
  lemma PairProductEven(p: nat, n: int)
    ensures ((2 * n - p - 1) * p) % 2 == 0
    ensures (2 * n - p - 1) * p / 2 == RowStart(p, n)
  {
    RowStartClosedForm(p, n);
    assert (2 * n - p - 1) * p == p * (2 * n - p - 1);
  }

  /** Rows never start earlier than the rows before them (up to row n). */
  lemma {:induction false} RowStartMonotone(a: nat, b: nat, n: int)
    requires a <= b <= n
    ensures RowStart(a, n) <= RowStart(b, n)
  {
    if a < b {
      RowStartMonotone(a, b - 1, n);
    }
  }

  /** Row n-1 (which is empty) starts at the vertex count. */
  lemma LastRowStart(n: nat)
    requires n >= 1
    ensures RowStart(n - 1, n) == VertexCount(n)
    ensures RowStart(n, n) == VertexCount(n)
  {
    RowStartClosedForm(n - 1, n);
    assert (n - 1) * (2 * n - (n - 1) - 1) == n * (n - 1);
  }

  /** Row lo of a level with n lines ends no later than the last vertex. */
  lemma RowFits(lo: nat, n: int)
    requires lo < n
    ensures (2 * n - lo - 1) * lo == 2 * RowStart(lo, n)
    ensures 0 <= RowStart(lo, n)
    ensures RowStart(lo, n) + n - lo - 1 <= VertexCount(n)
  {
    RowStartMonotone(0, lo, n);
    RowStartClosedForm(lo, n);
    assert (2 * n - lo - 1) * lo == lo * (2 * n - lo - 1);
    RowStartMonotone(lo + 1, n, n);
    LastRowStart(n);
  }

  /** The first term of the game's pair index, (2n - lo - 1) * lo / 2: the start of row lo. */
  function RowOffset(lo: nat, n: int): (r: int)
    requires lo < n
    ensures r == RowStart(lo, n)
  {
    var product := (2 * n - lo - 1) * lo;
    assert product == 2 * RowStart(lo, n) by {
      RowFits(lo, n);
    }
    product / 2
  }

  /** The game's pair index: order the pair, then (2n - p - 1) * p / 2 + q - p - 1.
      It lies in [0, VertexCount(n)) and is the position of q within row p. */
  function PairIndex(p: int, q: int, n: int): (r: int)
    requires 0 <= p < n && 0 <= q < n && p != q
    ensures 0 <= r < VertexCount(n)
    ensures r == RowStart(if p < q then p else q, n) + (if p < q then q - p else p - q) - 1
  {
    var lo := if p > q then q else p;
    var hi := if p > q then p else q;
    RowFits(lo, n);
    RowOffset(lo, n) + hi - lo - 1
  }

  /** The index does not depend on the order of the two lines. */
  lemma PairIndexSymmetric(p: int, q: int, n: int)
    requires 0 <= p < n && 0 <= q < n && p != q
    ensures PairIndex(p, q, n) == PairIndex(q, p, n)
  {
  }

  /** Different unordered pairs get different vertex indices. */
  lemma PairIndexInjective(p1: int, q1: int, p2: int, q2: int, n: int)
    requires 0 <= p1 < n && 0 <= q1 < n && p1 != q1
    requires 0 <= p2 < n && 0 <= q2 < n && p2 != q2
    requires PairIndex(p1, q1, n) == PairIndex(p2, q2, n)
    ensures (p1 == p2 && q1 == q2) || (p1 == q2 && q1 == p2)
  {
    var lo1, hi1 := if p1 < q1 then p1 else q1, if p1 < q1 then q1 else p1;
    var lo2, hi2 := if p2 < q2 then p2 else q2, if p2 < q2 then q2 else p2;
    if lo1 < lo2 {
      RowStartMonotone(lo1 + 1, lo2, n);
      assert false;
    } else if lo2 < lo1 {
      RowStartMonotone(lo2 + 1, lo1, n);
      assert false;
    }
  }

  /** Only the rows before the last one start below the vertex count. */
  lemma RowStartBelowCount(q: nat, n: int)
    requires 1 <= n && q <= n
    ensures RowStart(q, n) < VertexCount(n) ==> q < n - 1
  {
    LastRowStart(n);
    if q >= n - 1 {
      RowStartMonotone(n - 1, q, n);
    }
  }

  /** Helper for the onto property: a target index at or after row p's start is hit
      by a pair in row p or a later one. */
  lemma {:induction false} PairIndexOntoFrom(r: int, p: nat, n: int)
    requires p < n && RowStart(p, n) <= r < VertexCount(n)
    ensures exists a, b :: 0 <= a < b < n && PairIndex(a, b, n) == r
    decreases n - p
  {
    if r < RowStart(p + 1, n) {
      var q := r - RowStart(p, n) + p + 1;
      assert PairIndex(p, q, n) == r;
    } else {
      RowStartBelowCount(p + 1, n);
      PairIndexOntoFrom(r, p + 1, n);
    }
  }

  /** Every vertex index of the level is the index of some pair of lines, so PairIndex
      is a bijection from unordered pairs onto [0, VertexCount(n)). */
  lemma PairIndexOnto(r: int, n: int)
    requires n >= 1 && 0 <= r < VertexCount(n)
    ensures exists a, b :: 0 <= a < b < n && PairIndex(a, b, n) == r
  {
    PairIndexOntoFrom(r, 0, n);
  }
}
