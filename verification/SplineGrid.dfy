/**
 The bicubic B-spline of the local-normalization grids (native/src/FusedIntegration.cpp): reflected indices,
 weights, and the evaluation of a grid at a pixel.
 */
module SplineGrid {

  /** Mirror an index at the borders: -1 is 0 again, length is length - 1. */
  function ReflectedIndex(index: int, length: int): int {
    if index < 0 then -index - 1 else if index >= length then 2 * length - index - 1 else index
  }

  /** The four indices around any cell stay inside a grid of at least two nodes. */
  lemma ReflectedInside(cell: int, k: int, length: int)
    requires length >= 2 && 0 <= cell < length && 0 <= k < 4
    ensures 0 <= ReflectedIndex(cell + k - 1, length) < length
    ensures 0 <= cell + k - 1 < length ==> ReflectedIndex(cell + k - 1, length) == cell + k - 1
  {}

  function PositiveCube(v: real): real { if v > 0.0 then v * v * v else 0.0 }

  function BSplineWeight(x: real): real {
    (PositiveCube(x + 2.0) - 4.0 * PositiveCube(x + 1.0) + 6.0 * PositiveCube(x) - 4.0 * PositiveCube(x - 1.0)) / 6.0
  }

  /** The weight of node k of the four around a point at distance d into its cell. */
  function NodeWeight(d: real, k: int): real { BSplineWeight((k - 1) as real - d) }

  lemma Part(a: real, d: real)
    requires a >= 0.0 && 0.0 <= d <= 1.0
    ensures 0.0 <= a * d <= a
  {
    assert a * (1.0 - d) >= 0.0;
  }

  lemma Powers(e: real, p: real, q: real)
    requires 0.0 <= e <= 1.0 && p == e * e && q == e * e * e
    ensures 0.0 <= q <= p <= e
  {
    Part(e, e);
    Part(e * e, e);
  }

  lemma Mirror(d: real, s: real, c: real, p: real, q: real)
    requires s == d * d && c == d * d * d && p == (1.0 - d) * (1.0 - d) && q == (1.0 - d) * (1.0 - d) * (1.0 - d)
    ensures p == 1.0 - 2.0 * d + s && q == 1.0 - 3.0 * d + 3.0 * s - c
  {}

  lemma UnitPowers(d: real, s: real, c: real)
    requires 0.0 <= d < 1.0 && s == d * d && c == d * d * d
    ensures 0.0 <= c <= s <= d && 1.0 - 3.0 * d + 3.0 * s - c >= 0.0 && 4.0 - 6.0 * s + 3.0 * c >= 0.0
  {
    var p, q := (1.0 - d) * (1.0 - d), (1.0 - d) * (1.0 - d) * (1.0 - d);
    Powers(d, s, c);
    Powers(1.0 - d, p, q);
    Mirror(d, s, c, p, q);
  }

  /** The truncated cubes at the four nodes around. */
  lemma CubesAt(d: real, s: real, c: real)
    requires 0.0 <= d < 1.0 && s == d * d && c == d * d * d
    ensures PositiveCube(1.0 - d) == 1.0 - 3.0 * d + 3.0 * s - c
    ensures PositiveCube(2.0 - d) == 8.0 - 12.0 * d + 6.0 * s - c
    ensures PositiveCube(3.0 - d) == 27.0 - 27.0 * d + 9.0 * s - c
    ensures PositiveCube(4.0 - d) == 64.0 - 48.0 * d + 12.0 * s - c
    ensures PositiveCube(-d) == 0.0 && PositiveCube(-1.0 - d) == 0.0 && PositiveCube(-2.0 - d) == 0.0
  {
    hide *;
    CubeFrom(1.0, d, s, c);
    CubeFrom(2.0, d, s, c);
    CubeFrom(3.0, d, s, c);
    CubeFrom(4.0, d, s, c);
    NoCube(-d);
    NoCube(-1.0 - d);
    NoCube(-2.0 - d);
  }

  lemma CubeFrom(a: real, d: real, s: real, c: real)
    requires a > d && s == d * d && c == d * d * d
    ensures PositiveCube(a - d) == a * a * a - 3.0 * a * a * d + 3.0 * a * s - c
  {
    var e := a - d;
    assert e * e == a * a - 2.0 * a * d + s;
    assert e * e * e == (a * a - 2.0 * a * d + s) * a - (a * a - 2.0 * a * d + s) * d;
  }

  lemma NoCube(v: real)
    requires v <= 0.0
    ensures PositiveCube(v) == 0.0
  {}

  /** The four weights as polynomials of the distance. */
  lemma NodeWeights(d: real, s: real, c: real)
    requires 0.0 <= d < 1.0 && s == d * d && c == d * d * d
    ensures NodeWeight(d, 0) == (1.0 - 3.0 * d + 3.0 * s - c) / 6.0
    ensures NodeWeight(d, 1) == (4.0 - 6.0 * s + 3.0 * c) / 6.0
    ensures NodeWeight(d, 2) == (1.0 + 3.0 * d + 3.0 * s - 3.0 * c) / 6.0
    ensures NodeWeight(d, 3) == c / 6.0
  {
    hide *;
    CubesAt(d, s, c);
    NodesAre(d);
    WeightAt(-1.0 - d, 1.0 - d, -d, -1.0 - d, -2.0 - d);
    WeightAt(-d, 2.0 - d, 1.0 - d, -d, -1.0 - d);
    WeightAt(1.0 - d, 3.0 - d, 2.0 - d, 1.0 - d, -d);
    WeightAt(2.0 - d, 4.0 - d, 3.0 - d, 2.0 - d, 1.0 - d);
  }

  lemma NodesAre(d: real)
    ensures NodeWeight(d, 0) == BSplineWeight(-1.0 - d) && NodeWeight(d, 1) == BSplineWeight(-d)
    ensures NodeWeight(d, 2) == BSplineWeight(1.0 - d) && NodeWeight(d, 3) == BSplineWeight(2.0 - d)
  {
    hide BSplineWeight;
  }

  lemma WeightAt(x: real, p: real, q: real, r: real, t: real)
    requires p == x + 2.0 && q == x + 1.0 && r == x && t == x - 1.0
    ensures BSplineWeight(x)
      == (PositiveCube(p) - 4.0 * PositiveCube(q) + 6.0 * PositiveCube(r) - 4.0 * PositiveCube(t)) / 6.0
  {}

  lemma WeightsArePartition(d: real)
    requires 0.0 <= d < 1.0
    ensures forall k :: 0 <= k < 4 ==> NodeWeight(d, k) >= 0.0
    ensures NodeWeight(d, 0) + NodeWeight(d, 1) + NodeWeight(d, 2) + NodeWeight(d, 3) == 1.0
  {
    NodeWeights(d, d * d, d * d * d);
    UnitPowers(d, d * d, d * d * d);
    hide NodeWeight;
  }

  // ----- evaluation -----

  ghost predicate Grid(grid: seq<seq<real>>, width: nat, height: nat) {
    width >= 2 && height >= 2 && |grid| == height && forall j :: 0 <= j < height ==> |grid[j]| == width
  }

  /** The running result after n columns of one grid row. */
  function RowFrom(result: real, row: seq<real>, cell: int, dx: real, wy: real, n: nat): real
    requires |row| >= 2 && 0 <= cell < |row| && n <= 4
  {
    if n == 0 then result
    else
      ReflectedInside(cell, n - 1, |row|);
      RowFrom(result, row, cell, dx, wy, n - 1)
          + row[ReflectedIndex(cell + n - 1 - 1, |row|)] * NodeWeight(dx, n - 1) * wy
  }

  /** The running result after m grid rows. */
  function RowsFrom(grid: seq<seq<real>>, width: nat, height: nat, x1: int, y1: int, dx: real, dy: real, m: nat): real
    requires Grid(grid, width, height) && 0 <= x1 < width && 0 <= y1 < height && m <= 4
  {
    if m == 0 then 0.0
    else
      ReflectedInside(y1, m - 1, height);
      RowFrom(RowsFrom(grid, width, height, x1, y1, dx, dy, m - 1), grid[ReflectedIndex(y1 + m - 1 - 1, height)], x1,
          dx, NodeWeight(dy, m - 1), 4)
  }

  /** The spline at a point of [0, width) x [0, height). */
  function Sample(grid: seq<seq<real>>, width: nat, height: nat, x: real, y: real): real
    requires Grid(grid, width, height) && 0.0 <= x < width as real && 0.0 <= y < height as real
  {
    RowsFrom(grid, width, height, x.Floor, y.Floor, x - x.Floor as real, y - y.Floor as real, 4)
  }

  lemma RowNext(before: real, row: seq<real>, cell: int, dx: real, wy: real, n: nat, index: int)
    requires |row| >= 2 && 0 <= cell < |row| && n < 4 && index == ReflectedIndex(cell + n - 1, |row|)
    ensures 0 <= index < |row| && RowFrom(before, row, cell, dx, wy, 0) == before
    ensures RowFrom(before, row, cell, dx, wy, n + 1)
      == RowFrom(before, row, cell, dx, wy, n) + row[index] * NodeWeight(dx, n) * wy
  {
    ReflectedInside(cell, n, |row|);
    hide NodeWeight, ReflectedIndex;
    assert index == ReflectedIndex(cell + (n + 1) - 1 - 1, |row|);
  }

  lemma RowsNext(grid: seq<seq<real>>, width: nat, height: nat, x1: int, y1: int, dx: real, dy: real, m: nat,
                 index: int)
    requires Grid(grid, width, height) && 0 <= x1 < width && 0 <= y1 < height && m < 4
    requires index == ReflectedIndex(y1 + m - 1, height)
    ensures 0 <= index < height && |grid[index]| == width
    ensures RowsFrom(grid, width, height, x1, y1, dx, dy, m + 1)
      == RowFrom(RowsFrom(grid, width, height, x1, y1, dx, dy, m), grid[index], x1, dx, NodeWeight(dy, m), 4)
  {
    ReflectedInside(y1, m, height);
    hide NodeWeight, ReflectedIndex, RowFrom;
    assert index == ReflectedIndex(y1 + (m + 1) - 1 - 1, height);
  }

  /** BicubicBSplineSample. */
  method BicubicBSplineSample(grid: seq<seq<real>>, width: nat, height: nat, x: real, y: real) returns (result: real)
    requires Grid(grid, width, height) && 0.0 <= x < width as real && 0.0 <= y < height as real
    ensures result == Sample(grid, width, height, x, y)
  {
    hide NodeWeight, ReflectedIndex, RowFrom;
    var x1, y1 := x.Floor, y.Floor;
    var dx, dy := x - x1 as real, y - y1 as real;
    result := 0.0;
    for row := 0 to 4
      invariant result == RowsFrom(grid, width, height, x1, y1, dx, dy, row)
    {
      var gy := ReflectedIndex(y1 + row - 1, height);
      RowsNext(grid, width, height, x1, y1, dx, dy, row, gy);
      result := SplineRow(result, grid[gy], x1, dx, NodeWeight(dy, row));
    }
  }

  /** One grid row of the sample. */
  method SplineRow(before: real, row: seq<real>, cell: int, dx: real, wy: real) returns (result: real)
    requires |row| >= 2 && 0 <= cell < |row|
    ensures result == RowFrom(before, row, cell, dx, wy, 4)
  {
    hide NodeWeight, ReflectedIndex, RowFrom;
    result := before;
    RowNext(before, row, cell, dx, wy, 0, ReflectedIndex(cell - 1, |row|));
    for column := 0 to 4
      invariant result == RowFrom(before, row, cell, dx, wy, column)
    {
      var gx := ReflectedIndex(cell + column - 1, |row|);
      RowNext(before, row, cell, dx, wy, column, gx);
      var wx := NodeWeight(dx, column);
      result := result + row[gx] * wx * wy;
    }
  }

  // ----- range -----

  /** A sum of values between low and high with total weight w. */
  predicate Mean(sum: real, low: real, high: real, w: real) { low * w <= sum <= high * w }

  lemma AddToMean(sum: real, low: real, high: real, w: real, v: real, c: real, added: real, total: real)
    requires Mean(sum, low, high, w) && low <= v <= high && c >= 0.0 && added == v * c && total == w + c
    ensures Mean(sum + added, low, high, total)
  {
    assert (v - low) * c >= 0.0 && (high - v) * c >= 0.0;
    assert low * (w + c) == low * w + low * c && high * (w + c) == high * w + high * c;
  }

  /** The total weight of the first n nodes of a row. */
  function RowWeight(dx: real, wy: real, n: nat): real {
    if n == 0 then 0.0 else RowWeight(dx, wy, n - 1) + NodeWeight(dx, n - 1) * wy
  }

  function RowsWeight(dx: real, dy: real, m: nat): real {
    if m == 0 then 0.0 else RowsWeight(dx, dy, m - 1) + RowWeight(dx, NodeWeight(dy, m - 1), 4)
  }

  ghost predicate AllIn(row: seq<real>, low: real, high: real) {
    forall i :: 0 <= i < |row| ==> low <= row[i] <= high
  }

  lemma {:induction false} RowInRange(result: real, row: seq<real>, cell: int, dx: real, wy: real, n: nat, low: real,
                                      high: real, w: real)
    requires |row| >= 2 && 0 <= cell < |row| && n <= 4 && 0.0 <= dx < 1.0 && wy >= 0.0
    requires AllIn(row, low, high) && Mean(result, low, high, w)
    ensures Mean(RowFrom(result, row, cell, dx, wy, n), low, high, w + RowWeight(dx, wy, n))
  {
    if n == 0 {
      hide Mean;
      assert w + RowWeight(dx, wy, 0) == w;
    } else {
      hide *;
      RowInRange(result, row, cell, dx, wy, n - 1, low, high, w);
      ReflectedInside(cell, n - 1, |row|);
      WeightsArePartition(dx);
      var v, wx := row[ReflectedIndex(cell + n - 1 - 1, |row|)], NodeWeight(dx, n - 1);
      InRange(row, ReflectedIndex(cell + n - 1 - 1, |row|), low, high);
      var p, q := Product(wx, wy, v);
      RowStep(result, row, cell, dx, wy, n, v, wx, p, q);
      AddToMean(RowFrom(result, row, cell, dx, wy, n - 1), low, high, w + RowWeight(dx, wy, n - 1), v, p, q,
          w + RowWeight(dx, wy, n));
    }
  }

  lemma InRange(row: seq<real>, i: nat, low: real, high: real)
    requires AllIn(row, low, high) && i < |row|
    ensures low <= row[i] <= high
  {}

  lemma Product(a: real, b: real, v: real) returns (p: real, q: real)
    requires a >= 0.0 && b >= 0.0
    ensures p == a * b && p >= 0.0 && q == v * p && q == v * a * b
  {
    p, q := a * b, v * (a * b);
  }

  lemma RowStep(result: real, row: seq<real>, cell: int, dx: real, wy: real, n: nat, v: real, wx: real, p: real,
                q: real)
    requires |row| >= 2 && 0 <= cell < |row| && 0 < n <= 4 && p == wx * wy && q == v * wx * wy
    requires 0 <= ReflectedIndex(cell + n - 1 - 1, |row|) < |row| && v == row[ReflectedIndex(cell + n - 1 - 1, |row|)]
      && wx == NodeWeight(dx, n - 1)
    ensures RowFrom(result, row, cell, dx, wy, n) == RowFrom(result, row, cell, dx, wy, n - 1) + q
    ensures RowWeight(dx, wy, n) == RowWeight(dx, wy, n - 1) + p
  {
    hide NodeWeight;
    Same(wx, NodeWeight(dx, n - 1), wy, v);
  }

  lemma Same(p: real, q: real, a: real, v: real)
    requires p == q
    ensures p * a == q * a && v * p * a == v * q * a
  {}

  lemma {:induction false} RowsInRange(grid: seq<seq<real>>, width: nat, height: nat, x1: int, y1: int, dx: real,
                                       dy: real, m: nat, low: real, high: real)
    requires Grid(grid, width, height) && 0 <= x1 < width && 0 <= y1 < height && m <= 4 && 0.0 <= dx < 1.0
      && 0.0 <= dy < 1.0
    requires forall j :: 0 <= j < height ==> AllIn(grid[j], low, high)
    ensures Mean(RowsFrom(grid, width, height, x1, y1, dx, dy, m), low, high, RowsWeight(dx, dy, m))
  {
    hide NodeWeight, Mean, AllIn;
    if m == 0 {
      NoMean(low, high);
    } else {
      RowsInRange(grid, width, height, x1, y1, dx, dy, m - 1, low, high);
      ReflectedInside(y1, m - 1, height);
      WeightsArePartition(dy);
      RowInRange(RowsFrom(grid, width, height, x1, y1, dx, dy, m - 1), grid[ReflectedIndex(y1 + m - 1 - 1, height)], x1,
          dx, NodeWeight(dy, m - 1), 4,
                 low, high, RowsWeight(dx, dy, m - 1));
    }
  }

  lemma NoMean(low: real, high: real)
    ensures Mean(0.0, low, high, 0.0)
  {}

  lemma RowWeightIs(dx: real, wy: real)
    requires 0.0 <= dx < 1.0
    ensures RowWeight(dx, wy, 4) == wy
  {
    hide NodeWeight;
    WeightsArePartition(dx);
    FourNodes(dx, wy);
    Shares(NodeWeight(dx, 0), NodeWeight(dx, 1), NodeWeight(dx, 2), NodeWeight(dx, 3), wy);
  }

  lemma Shares(a: real, b: real, c: real, d: real, wy: real)
    requires a + b + c + d == 1.0
    ensures a * wy + b * wy + c * wy + d * wy == wy
  {
    assert a * wy + b * wy + c * wy + d * wy == (a + b + c + d) * wy;
  }

  lemma FourNodes(dx: real, wy: real)
    ensures RowWeight(dx, wy, 4)
      == NodeWeight(dx, 0) * wy + NodeWeight(dx, 1) * wy + NodeWeight(dx, 2) * wy + NodeWeight(dx, 3) * wy
  {
    hide NodeWeight;
    assert RowWeight(dx, wy, 1) == NodeWeight(dx, 0) * wy;
    assert RowWeight(dx, wy, 2) == RowWeight(dx, wy, 1) + NodeWeight(dx, 1) * wy;
    assert RowWeight(dx, wy, 3) == RowWeight(dx, wy, 2) + NodeWeight(dx, 2) * wy;
  }

  lemma AllWeight(dx: real, dy: real)
    requires 0.0 <= dx < 1.0 && 0.0 <= dy < 1.0
    ensures RowsWeight(dx, dy, 4) == 1.0
  {
    hide NodeWeight, RowWeight;
    WeightsArePartition(dy);
    RowWeightIs(dx, NodeWeight(dy, 0));
    RowWeightIs(dx, NodeWeight(dy, 1));
    RowWeightIs(dx, NodeWeight(dy, 2));
    RowWeightIs(dx, NodeWeight(dy, 3));
    assert RowsWeight(dx, dy, 1) == NodeWeight(dy, 0);
    assert RowsWeight(dx, dy, 2) == RowsWeight(dx, dy, 1) + NodeWeight(dy, 1);
    assert RowsWeight(dx, dy, 3) == RowsWeight(dx, dy, 2) + NodeWeight(dy, 2);
  }

  /** The spline never leaves the range of its nodes. */
  lemma SampleInRange(grid: seq<seq<real>>, width: nat, height: nat, x: real, y: real, low: real, high: real)
    requires Grid(grid, width, height) && 0.0 <= x < width as real && 0.0 <= y < height as real
    requires forall j :: 0 <= j < height ==> AllIn(grid[j], low, high)
    ensures low <= Sample(grid, width, height, x, y) <= high
  {
    var dx, dy := x - x.Floor as real, y - y.Floor as real;
    hide RowsFrom, RowsWeight, AllIn;
    RowsInRange(grid, width, height, x.Floor, y.Floor, dx, dy, 4, low, high);
    AllWeight(dx, dy);
    UnitMean(Sample(grid, width, height, x, y), low, high, RowsWeight(dx, dy, 4));
  }

  lemma UnitMean(sum: real, low: real, high: real, w: real)
    requires Mean(sum, low, high, w) && w == 1.0
    ensures low <= sum <= high
  {}

  /** A constant grid is its constant everywhere. */
  lemma ConstantGrid(grid: seq<seq<real>>, width: nat, height: nat, x: real, y: real, c: real)
    requires Grid(grid, width, height) && 0.0 <= x < width as real && 0.0 <= y < height as real
    requires forall j, i :: 0 <= j < height && 0 <= i < width ==> grid[j][i] == c
    ensures Sample(grid, width, height, x, y) == c
  {
    SampleInRange(grid, width, height, x, y, c, c);
  }
}
