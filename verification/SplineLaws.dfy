/**
 What the bicubic B-spline of native/src/FusedIntegration.cpp does along each axis: it reproduces grids that are linear
 in the column and the row, and the borders of a grid are mirrored.
 */
module SplineLaws {
  import opened SplineGrid

  /** The weights add up to one, and the mean of the nodes is the point itself. */
  lemma WeightMoments(d: real)
    requires 0.0 <= d < 1.0
    ensures NodeWeight(d, 0) + NodeWeight(d, 1) + NodeWeight(d, 2) + NodeWeight(d, 3) == 1.0
    ensures -NodeWeight(d, 0) + NodeWeight(d, 2) + 2.0 * NodeWeight(d, 3) == d
  {
    hide NodeWeight;
    NodeWeights(d, d * d, d * d * d);
  }

  /** The four nodes of a row, one by one. */
  lemma FourOfRow(before: real, row: seq<real>, cell: int, dx: real, wy: real, n: int)
    requires |row| >= 2 && 0 <= cell < |row| && n == |row|
    ensures 0 <= ReflectedIndex(cell - 1, n) < n && 0 <= ReflectedIndex(cell, n) < n
    ensures 0 <= ReflectedIndex(cell + 1, n) < n && 0 <= ReflectedIndex(cell + 2, n) < n
    ensures RowFrom(before, row, cell, dx, wy, 4) == before
      + row[ReflectedIndex(cell - 1, n)] * NodeWeight(dx, 0) * wy
      + row[ReflectedIndex(cell, n)] * NodeWeight(dx, 1) * wy
      + row[ReflectedIndex(cell + 1, n)] * NodeWeight(dx, 2) * wy
      + row[ReflectedIndex(cell + 2, n)] * NodeWeight(dx, 3) * wy
  {
    hide NodeWeight, ReflectedIndex, RowFrom;
    RowNext(before, row, cell, dx, wy, 0, ReflectedIndex(cell - 1, n));
    RowNext(before, row, cell, dx, wy, 1, ReflectedIndex(cell, n));
    RowNext(before, row, cell, dx, wy, 2, ReflectedIndex(cell + 1, n));
    RowNext(before, row, cell, dx, wy, 3, ReflectedIndex(cell + 2, n));
  }

  // ----- linear grids -----

  lemma LinearSum(p: real, b: real, w0: real, w1: real, w2: real, w3: real, d: real, v0: real, v1: real, v2: real,
                  v3: real)
    requires w0 + w1 + w2 + w3 == 1.0 && -w0 + w2 + 2.0 * w3 == d
    requires v0 == p - b && v1 == p && v2 == p + b && v3 == p + 2.0 * b
    ensures v0 * w0 + v1 * w1 + v2 * w2 + v3 * w3 == p + b * d
  {
    hide *;
    assert v0 * w0 == p * w0 - b * w0;
    assert v2 * w2 == p * w2 + b * w2;
    assert v3 * w3 == p * w3 + 2.0 * (b * w3);
    assert p * (w0 + w1 + w2 + w3) == p * w0 + p * w1 + p * w2 + p * w3;
    assert b * (-w0 + w2 + 2.0 * w3) == -(b * w0) + b * w2 + 2.0 * (b * w3);
  }

  lemma Weighted(v0: real, v1: real, v2: real, v3: real, w0: real, w1: real, w2: real, w3: real, wy: real, sum: real)
    requires v0 * w0 + v1 * w1 + v2 * w2 + v3 * w3 == sum
    ensures v0 * w0 * wy + v1 * w1 * wy + v2 * w2 * wy + v3 * w3 * wy == sum * wy
  {}

  lemma LinearRow(before: real, row: seq<real>, cell: int, dx: real, wy: real, p: real, b: real)
    requires |row| >= 4 && 1 <= cell <= |row| - 3 && 0.0 <= dx < 1.0
    requires row[cell - 1] == p - b && row[cell] == p && row[cell + 1] == p + b && row[cell + 2] == p + 2.0 * b
    ensures RowFrom(before, row, cell, dx, wy, 4) == before + (p + b * dx) * wy
  {
    hide NodeWeight, RowFrom;
    FourOfRow(before, row, cell, dx, wy, |row|);
    WeightMoments(dx);
    LinearSum(p, b, NodeWeight(dx, 0), NodeWeight(dx, 1), NodeWeight(dx, 2), NodeWeight(dx, 3), dx, row[cell - 1],
        row[cell], row[cell + 1], row[cell + 2]);
    Weighted(row[cell - 1], row[cell], row[cell + 1], row[cell + 2], NodeWeight(dx, 0), NodeWeight(dx, 1),
        NodeWeight(dx, 2), NodeWeight(dx, 3), wy, p + b * dx);
  }

  /** Node (j, i) holds a + b i + c j. */
  ghost predicate IsLinear(grid: seq<seq<real>>, a: real, b: real, c: real) {
    forall j, i :: 0 <= j < |grid| && 0 <= i < |grid[j]| ==> grid[j][i] == a + b * i as real + c * j as real
  }

  lemma LinearNodes(grid: seq<seq<real>>, width: nat, height: nat, a: real, b: real, c: real, j: int, cell: int,
                    p: real)
    requires Grid(grid, width, height) && IsLinear(grid, a, b, c) && 0 <= j < height && 1 <= cell <= width - 3
    requires p == a + b * cell as real + c * j as real
    ensures grid[j][cell - 1] == p - b && grid[j][cell] == p && grid[j][cell + 1] == p + b
    ensures grid[j][cell + 2] == p + 2.0 * b
  {
    Shifted(b, cell);
  }

  lemma Shifted(b: real, cell: int)
    ensures b * (cell - 1) as real == b * cell as real - b && b * (cell + 1) as real == b * cell as real + b
    ensures b * (cell + 2) as real == b * cell as real + 2.0 * b
  {}

  lemma LinearRows(grid: seq<seq<real>>, width: nat, height: nat, x1: int, y1: int, dx: real, dy: real, m: nat,
                   a: real, b: real, c: real, p: real, value: real)
    requires Grid(grid, width, height) && IsLinear(grid, a, b, c) && m < 4
    requires 1 <= x1 <= width - 3 && 1 <= y1 <= height - 3 && 0.0 <= dx < 1.0
    requires p == a + b * x1 as real + c * y1 as real + b * dx && value == p + (m as real - 1.0) * c
    ensures RowsFrom(grid, width, height, x1, y1, dx, dy, m + 1)
      == RowsFrom(grid, width, height, x1, y1, dx, dy, m) + value * NodeWeight(dy, m)
  {
    hide NodeWeight, RowFrom, RowsFrom, IsLinear;
    var j, before := y1 + m - 1, RowsFrom(grid, width, height, x1, y1, dx, dy, m);
    RowsNext(grid, width, height, x1, y1, dx, dy, m, j);
    var q := a + b * x1 as real + c * j as real;
    LinearNodes(grid, width, height, a, b, c, j, x1, q);
    LinearRow(before, grid[j], x1, dx, NodeWeight(dy, m), q, b);
    RowShift(c, y1, m);
    SameFactor(q + b * dx, value, NodeWeight(dy, m));
  }

  lemma RowShift(c: real, y1: int, m: nat)
    ensures c * (y1 + m - 1) as real == c * y1 as real + (m as real - 1.0) * c
  {
    assert (y1 + m - 1) as real == y1 as real + (m as real - 1.0);
  }

  lemma SameFactor(p: real, q: real, w: real)
    requires p == q
    ensures p * w == q * w
  {}

  /** A grid that is linear in the column and the row is reproduced two nodes inside its borders. */
  lemma LinearGrid(grid: seq<seq<real>>, width: nat, height: nat, x: real, y: real, a: real, b: real, c: real)
    requires Grid(grid, width, height) && IsLinear(grid, a, b, c)
    requires 1.0 <= x < width as real - 2.0 && 1.0 <= y < height as real - 2.0
    ensures Sample(grid, width, height, x, y) == a + b * x + c * y
  {
    hide *;
    var x1, y1 := x.Floor, y.Floor;
    var dx, dy := x - x1 as real, y - y1 as real;
    var p := a + b * x1 as real + c * y1 as real + b * dx;
    LinearRows(grid, width, height, x1, y1, dx, dy, 0, a, b, c, p, p - c);
    LinearRows(grid, width, height, x1, y1, dx, dy, 1, a, b, c, p, p);
    LinearRows(grid, width, height, x1, y1, dx, dy, 2, a, b, c, p, p + c);
    LinearRows(grid, width, height, x1, y1, dx, dy, 3, a, b, c, p, p + 2.0 * c);
    NoRows(grid, width, height, x1, y1, dx, dy);
    SampleIs(grid, width, height, x, y, dx, dy);
    WeightMoments(dy);
    LinearSum(p, c, NodeWeight(dy, 0), NodeWeight(dy, 1), NodeWeight(dy, 2), NodeWeight(dy, 3), dy, p - c, p, p + c,
        p + 2.0 * c);
    Whole(a, b, c, x1 as real, y1 as real, dx, dy, x, y, p);
  }

  lemma NoRows(grid: seq<seq<real>>, width: nat, height: nat, x1: int, y1: int, dx: real, dy: real)
    requires Grid(grid, width, height) && 0 <= x1 < width && 0 <= y1 < height
    ensures RowsFrom(grid, width, height, x1, y1, dx, dy, 0) == 0.0
  {}

  lemma SampleIs(grid: seq<seq<real>>, width: nat, height: nat, x: real, y: real, dx: real, dy: real)
    requires Grid(grid, width, height) && 0.0 <= x < width as real && 0.0 <= y < height as real
    requires dx == x - x.Floor as real && dy == y - y.Floor as real
    ensures Sample(grid, width, height, x, y) == RowsFrom(grid, width, height, x.Floor, y.Floor, dx, dy, 4)
  {
    hide RowsFrom;
  }

  lemma Whole(a: real, b: real, c: real, x1: real, y1: real, dx: real, dy: real, x: real, y: real, p: real)
    requires x == x1 + dx && y == y1 + dy && p == a + b * x1 + c * y1 + b * dx
    ensures p + c * dy == a + b * x + c * y
  {
    assert b * (x1 + dx) == b * x1 + b * dx;
    assert c * (y1 + dy) == c * y1 + c * dy;
  }

  // ----- borders -----

  /** A list with two more entries at both ends, mirrored: d c b a -> c d d c b a a b. */
  function Padded<T>(s: seq<T>): (p: seq<T>)
    requires |s| >= 2
    ensures |p| == |s| + 4
  {
    [s[1], s[0]] + s + [s[|s| - 1], s[|s| - 2]]
  }

  function PaddedGrid(grid: seq<seq<real>>, width: nat, height: nat): (p: seq<seq<real>>)
    requires Grid(grid, width, height)
    ensures Grid(p, width + 4, height + 4)
  {
    Padded(seq(height, j requires 0 <= j < height => Padded(grid[j])))
  }

  lemma PaddedIndex<T>(s: seq<T>, i: int)
    requires |s| >= 2 && -2 <= i <= |s| + 1
    ensures 0 <= ReflectedIndex(i, |s|) < |s|
    ensures Padded(s)[i + 2] == s[ReflectedIndex(i, |s|)]
  {}

  lemma PaddedRow(before: real, row: seq<real>, cell: int, dx: real, wy: real)
    requires |row| >= 2 && 0 <= cell < |row|
    ensures RowFrom(before, Padded(row), cell + 2, dx, wy, 4) == RowFrom(before, row, cell, dx, wy, 4)
  {
    hide NodeWeight, RowFrom, Padded;
    var n := |row|;
    FourOfRow(before, row, cell, dx, wy, n);
    FourOfRow(before, Padded(row), cell + 2, dx, wy, n + 4);
    PaddedIndex(row, cell - 1);
    PaddedIndex(row, cell);
    PaddedIndex(row, cell + 1);
    PaddedIndex(row, cell + 2);
  }

  lemma {:induction false} PaddedRows(grid: seq<seq<real>>, width: nat, height: nat, x1: int, y1: int, dx: real,
                                      dy: real, m: nat)
    requires Grid(grid, width, height) && 0 <= x1 < width && 0 <= y1 < height && m <= 4
    ensures RowsFrom(PaddedGrid(grid, width, height), width + 4, height + 4, x1 + 2, y1 + 2, dx, dy, m)
      == RowsFrom(grid, width, height, x1, y1, dx, dy, m)
  {
    hide NodeWeight, RowFrom, Padded;
    if m > 0 {
      PaddedRows(grid, width, height, x1, y1, dx, dy, m - 1);
      var i := y1 + m - 2;
      var j := ReflectedIndex(i, height);
      RowsNext(grid, width, height, x1, y1, dx, dy, m - 1, j);
      RowsNext(PaddedGrid(grid, width, height), width + 4, height + 4, x1 + 2, y1 + 2, dx, dy, m - 1, i + 2);
      PaddedIndex(seq(height, k requires 0 <= k < height => Padded(grid[k])), i);
      PaddedRow(RowsFrom(grid, width, height, x1, y1, dx, dy, m - 1), grid[j], x1, dx, NodeWeight(dy, m - 1));
    }
  }

  /** At its borders a grid is sampled as if its first and last nodes stood there once more, mirrored. */
  lemma BordersAreMirrored(grid: seq<seq<real>>, width: nat, height: nat, x: real, y: real)
    requires Grid(grid, width, height) && 0.0 <= x < width as real && 0.0 <= y < height as real
    ensures Sample(PaddedGrid(grid, width, height), width + 4, height + 4, x + 2.0, y + 2.0)
      == Sample(grid, width, height, x, y)
  {
    hide RowsFrom, PaddedGrid;
    var dx, dy := x - x.Floor as real, y - y.Floor as real;
    PaddedRows(grid, width, height, x.Floor, y.Floor, dx, dy, 4);
    assert (x + 2.0).Floor == x.Floor + 2 && (y + 2.0).Floor == y.Floor + 2;
    SampleIs(PaddedGrid(grid, width, height), width + 4, height + 4, x + 2.0, y + 2.0, dx, dy);
  }
}
