/**
 The digital lines of the fast Radon transform (native/src/PortableKernels.cpp): mirrored shifts give mirrored lines,
 every line looks the same from both ends, and each halving leaves it at most half a column further from the straight
 line between its ends.
 */
module RadonLines {
  import opened Radon

  lemma MirroredHalf(s: int)
    ensures Half(-s) == -Half(s)
  {}

  /** The line of the opposite shift is the mirrored line. */
  lemma {:induction false} LineMirrored(n: nat, s: int, r: nat)
    requires PowerOfTwo(n) && -(n as int) < s < n && r < n
    ensures Offset(n, -s, r) == -Offset(n, s, r)
    decreases n
  {
    hide *;
    if n == 1 {
      OffsetOne(n, s);
      OffsetOne(n, -s);
    } else {
      var h := n / 2;
      Halving(n, h, s);
      MirroredHalf(s);
      var q := if r < h then r else r - h;
      LineMirrored(h, Half(s), q);
      OffsetHalves(n, h, s, q);
      OffsetHalves(n, h, -s, q);
    }
  }

  /** Counted from its other end, the line is the same. */
  lemma {:induction false} LineReversed(n: nat, s: int, r: nat)
    requires PowerOfTwo(n) && -(n as int) < s < n && r < n
    ensures Offset(n, s, n - 1 - r) == s - Offset(n, s, r)
    decreases n
  {
    hide *;
    if n == 1 {
      OffsetOne(n, s);
    } else {
      var h := n / 2;
      Halving(n, h, s);
      var q := if r < h then r else r - h;
      LineReversed(h, Half(s), q);
      OffsetHalves(n, h, s, q);
      OffsetHalves(n, h, s, h - 1 - q);
    }
  }

  /** How often n rows can be halved. */
  function Halvings(n: nat): nat {
    if n <= 1 then 0 else 1 + Halvings(n / 2)
  }

  /** Twice the distance of row r from the straight line, in units of 1/(n - 1) columns, is at most `bound`. */
  predicate Near(offset: int, s: int, r: int, rows: int, bound: int) {
    -bound <= 2 * (rows * offset - s * r) <= bound
  }

  lemma HalfOf(s: int, t: int, e: int)
    requires t == Half(s) && e == s - 2 * t
    ensures -1 <= e <= 1 && (e > 0 ==> t >= 0) && (e < 0 ==> t <= 0)
  {}

  lemma PositiveFactor(m: int, y: int)
    requires m > 0 && m * y >= 0
    ensures y >= 0
  {}

  lemma Scaled(m: int, x: int, bound: int)
    requires m > 0 && -(m * bound) <= m * x <= m * bound
    ensures -bound <= x <= bound
  {
    assert m * (bound - x) == m * bound - m * x && m * (bound + x) == m * bound + m * x;
    PositiveFactor(m, bound - x);
    PositiveFactor(m, bound + x);
  }

  lemma ProductBound(a: int, b: int, m: int, k: int)
    requires 0 <= a <= m && -k <= b <= k
    ensures -(m * k) <= a * b <= m * k
  {
    assert a * (k - b) >= 0 && a * (k + b) >= 0 && (m - a) * k >= 0;
  }

  /** From the half line of m + 1 rows to the line of 2 m + 2 rows. */
  lemma NextHalving(m: int, offset: int, t: int, e: int, r: int, halvings: int)
    requires m > 0 && 0 <= r <= m && -m <= t <= m && -1 <= e <= 1 && (e > 0 ==> t >= 0) && (e < 0 ==> t <= 0)
    requires Near(offset, t, r, m, halvings * m) && halvings >= 0
    ensures Near(offset, 2 * t + e, r, 2 * m + 1, (halvings + 1) * (2 * m + 1))
  {
    var s, rows, a := 2 * t + e, 2 * m + 1, m * offset - t * r;
    var x := rows * offset - s * r;
    var turn := t - e * m;
    Turned(m, t, e, turn);
    ProductBound(r, turn, m, m);
    Combined(m, offset, t, e, r, a, x, turn);
    var bound := halvings * m;
    assert -bound <= 2 * a <= bound;
    WithinHalvings(m, halvings, a, r * turn, x);
  }

  lemma Turned(m: int, t: int, e: int, turn: int)
    requires m > 0 && -m <= t <= m && -1 <= e <= 1 && (e > 0 ==> t >= 0) && (e < 0 ==> t <= 0) && turn == t - e * m
    ensures -m <= turn <= m
  {}

  lemma Combined(m: int, offset: int, t: int, e: int, r: int, a: int, x: int, turn: int)
    requires a == m * offset - t * r && x == (2 * m + 1) * offset - (2 * t + e) * r && turn == t - e * m
    ensures m * x == (2 * m + 1) * a + r * turn
  {
    var mo, tr, er, mtr, mer := m * offset, t * r, e * r, m * (t * r), m * (e * r);
    assert m * ((2 * m + 1) * offset) == (2 * m + 1) * mo;
    assert (2 * t + e) * r == 2 * tr + er;
    assert m * (2 * tr + er) == 2 * mtr + mer;
    assert (2 * m + 1) * a == (2 * m + 1) * mo - (2 * m + 1) * tr;
    assert (2 * m + 1) * tr == 2 * mtr + tr;
    assert r * turn == tr - mer;
    Apart(m, (2 * m + 1) * offset, (2 * t + e) * r, x);
  }

  lemma Apart(m: int, y: int, z: int, x: int)
    requires x == y - z
    ensures m * x == m * y - m * z
  {}

  lemma WithinHalvings(m: int, halvings: int, a: int, p: int, x: int)
    requires m > 0 && halvings >= 0 && -(halvings * m) <= 2 * a <= halvings * m && -(m * m) <= p <= m * m
    requires m * x == (2 * m + 1) * a + p
    ensures -((halvings + 1) * (2 * m + 1)) <= 2 * x <= (halvings + 1) * (2 * m + 1)
  {
    var rows, limit, square := 2 * m + 1, halvings * m, m * m;
    var bound := (halvings + 1) * rows;
    ProductBetween(rows, 2 * a, limit);
    BoundIs(m, halvings, rows, limit, bound, square);
    assert m * (2 * x) == 2 * (m * x) && rows * (2 * a) == 2 * (rows * a);
    Scaled(m, 2 * x, bound);
  }

  lemma ProductBetween(rows: int, y: int, limit: int)
    requires rows >= 0 && -limit <= y <= limit
    ensures -(rows * limit) <= rows * y <= rows * limit
  {
    assert rows * (limit - y) >= 0 && rows * (limit + y) >= 0;
  }

  lemma BoundIs(m: int, halvings: int, rows: int, limit: int, bound: int, square: int)
    requires m > 0 && rows == 2 * m + 1 && limit == halvings * m && bound == (halvings + 1) * rows && square == m * m
    ensures m * bound == rows * limit + 2 * square + m
  {
    assert m * bound == rows * (halvings * m) + m * rows;
    assert m * rows == 2 * (m * m) + m;
  }

  lemma FromOtherEnd(offset: int, s: int, r: int, rows: int, bound: int)
    requires Near(offset, s, r, rows, bound)
    ensures Near(s - offset, s, rows - r, rows, bound)
  {
    assert rows * (s - offset) - s * (rows - r) == -(rows * offset - s * r);
  }

  lemma TopIsNear(n: nat, h: nat, s: int, r: nat)
    requires PowerOfTwo(n) && n > 1 && h == n / 2 && -(n as int) < s < n && r < h && PowerOfTwo(h) && n == 2 * h
    requires -(h as int) < Half(s) < h && Halvings(n) == Halvings(h) + 1
    requires Near(Offset(h, Half(s), r), Half(s), r, h - 1, Halvings(h) * (h - 1))
    ensures Near(Offset(n, s, r), s, r, n - 1, Halvings(n) * (n - 1))
  {
    hide PowerOfTwo, Half, Offset, Halvings, Near;
    var t := Half(s);
    OffsetHalves(n, h, s, r);
    var e := s - 2 * t;
    HalfOf(s, t, e);
    if h == 1 {
      OffsetOne(h, t);
      FirstRow(s, r, Halvings(n));
    } else {
      NextHalving(h - 1, Offset(h, t, r), t, e, r, Halvings(h));
    }
  }

  lemma FirstRow(s: int, r: int, halvings: nat)
    requires r == 0
    ensures Near(0, s, r, 1, halvings * 1)
  {}

  /** Every row of a line is at most half a column per halving away from the straight line between its ends. */
  lemma {:induction false} LineIsNear(n: nat, s: int, r: nat)
    requires PowerOfTwo(n) && -(n as int) < s < n && r < n
    ensures Near(Offset(n, s, r), s, r, n - 1, Halvings(n) * (n - 1))
    decreases n, r
  {
    hide *;
    if n == 1 {
      OffsetOne(n, s);
      OneRow(s, r, Halvings(n));
    } else {
      var h := n / 2;
      Halving(n, h, s);
      MoreHalvings(n);
      var q := if r < h then r else n - 1 - r;
      LineIsNear(h, Half(s), q);
      TopIsNear(n, h, s, q);
      if r >= h {
        LineReversed(n, s, q);
        FromOtherEnd(Offset(n, s, q), s, q, n - 1, Halvings(n) * (n - 1));
      }
    }
  }

  lemma OneRow(s: int, r: int, halvings: nat)
    requires s == 0 && r == 0
    ensures Near(0, s, r, 0, halvings * 0)
  {}

  lemma MoreHalvings(n: nat)
    requires n > 1
    ensures Halvings(n) == 1 + Halvings(n / 2)
  {}
}
