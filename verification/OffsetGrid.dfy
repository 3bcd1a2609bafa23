/**
 Bilinear node grids (native/src/OffsetGridKernel.cpp, and NodeGrid in native/src/DrizzleKernel.cpp):
 edge-clamped interpolation, and the row kernel that caches the two node rows it used last.
 */
module OffsetGrid {
  import opened PooledWindow
  import opened Reals

  /** The lower node of the enclosing pair and the weight of the upper one. */
  datatype Cell = Cell(lower: nat, weight: real)

  /** Node positions: at least two, strictly increasing. */
  ghost predicate Nodes(nodes: seq<real>) {
    |nodes| >= 2 && forall i, j :: 0 <= i < j < |nodes| ==> nodes[i] < nodes[j]
  }

  function Clip(nodes: seq<real>, value: real): real
    requires |nodes| >= 2
  {
    var low := if value < nodes[0] then nodes[0] else value;
    if nodes[|nodes| - 1] < low then nodes[|nodes| - 1] else low
  }

  /** Clip the value to the nodes, then find its cell; the last node belongs to the last cell. */
  function Locate(nodes: seq<real>, value: real): (c: Cell)
    requires Nodes(nodes)
    ensures c.lower + 1 < |nodes|
    ensures nodes[c.lower] <= Clip(nodes, value) <= nodes[c.lower + 1]
    ensures c.weight == (Clip(nodes, value) - nodes[c.lower]) / (nodes[c.lower + 1] - nodes[c.lower])
  {
    var clipped := Clip(nodes, value);
    var index := UpperBound(nodes, clipped);
    assert index >= 1;
    var upper := if index < |nodes| - 1 then index else |nodes| - 1;
    Cell(upper - 1, (clipped - nodes[upper - 1]) / (nodes[upper] - nodes[upper - 1]))
  }

  lemma Quotient(n: real, d: real, w: real)
    requires d > 0.0 && 0.0 <= n <= d && w == n / d
    ensures w * d == n && 0.0 <= w <= 1.0
  {
    assert w * d == n;
    assert (-w) * d == -(w * d) && (w - 1.0) * d == w * d - d;
    Times(-w, d);
    Times(w - 1.0, d);
  }

  lemma Fraction(a: real, b: real, c: real, w: real)
    requires a < c && a <= b <= c && w == (b - a) / (c - a)
    ensures 0.0 <= w <= 1.0
    ensures a * (1.0 - w) + c * w == b
  {
    Quotient(b - a, c - a, w);
    assert a * (1.0 - w) + c * w == a + w * (c - a);
  }

  /** The weight is in [0, 1] and blends the two nodes back to the clipped value. */
  lemma LocateBlends(nodes: seq<real>, value: real)
    requires Nodes(nodes)
    ensures var c := Locate(nodes, value);
        && 0.0 <= c.weight <= 1.0
        && nodes[c.lower] * (1.0 - c.weight) + nodes[c.lower + 1] * c.weight == Clip(nodes, value)
  {
    var c := Locate(nodes, value);
    Fraction(nodes[c.lower], Clip(nodes, value), nodes[c.lower + 1], c.weight);
  }

  function Blend(a: real, b: real, w: real): real {
    a * (1.0 - w) + b * w
  }

  /** Grid values, one row of nodes per y node. */
  ghost predicate Grid(grid: seq<seq<real>>, xNodes: seq<real>, yNodes: seq<real>) {
    Nodes(xNodes) && Nodes(yNodes) && |grid| == |yNodes| && forall j :: 0 <= j < |grid| ==> |grid[j]| == |xNodes|
  }

  /** One node row at column position x. */
  function RowAt(row: seq<real>, xNodes: seq<real>, x: real): real
    requires Nodes(xNodes) && |row| == |xNodes|
  {
    var c := Locate(xNodes, x);
    Blend(row[c.lower], row[c.lower + 1], c.weight)
  }

  /** Direct edge-clamped bilinear interpolation. */
  function At(grid: seq<seq<real>>, xNodes: seq<real>, yNodes: seq<real>, x: real, y: real): real
    requires Grid(grid, xNodes, yNodes)
  {
    var c := Locate(yNodes, y);
    Blend(RowAt(grid[c.lower], xNodes, x), RowAt(grid[c.lower + 1], xNodes, x), c.weight)
  }

  // ----- what the interpolation is -----

  /** a + b*x + c*y + d*x*y */
  datatype Bilinear = Bilinear(a: real, b: real, c: real, d: real) {
    function Value(x: real, y: real): real {
      (a + c * y) + (b + d * y) * x
    }
  }

  lemma BlendAffine(k: real, m: real, x0: real, x1: real, w: real)
    ensures Blend(k + m * x0, k + m * x1, w) == k + m * (x0 * (1.0 - w) + x1 * w)
  {}

  lemma RowReproduces(p: Bilinear, row: seq<real>, xNodes: seq<real>, x: real, y: real)
    requires Nodes(xNodes) && |row| == |xNodes| && forall i :: 0 <= i < |row| ==> row[i] == p.Value(xNodes[i], y)
    ensures RowAt(row, xNodes, x) == p.Value(Clip(xNodes, x), y)
  {
    var c := Locate(xNodes, x);
    LocateBlends(xNodes, x);
    BlendAffine(p.a + p.c * y, p.b + p.d * y, xNodes[c.lower], xNodes[c.lower + 1], c.weight);
  }

  lemma ValueInY(p: Bilinear, x: real, y: real)
    ensures p.Value(x, y) == (p.a + p.b * x) + (p.c + p.d * x) * y
  {}

  /** A grid sampled from any bilinear function is reproduced exactly inside the nodes, and held at its edge outside. */
  lemma BilinearReproduced(p: Bilinear, grid: seq<seq<real>>, xNodes: seq<real>, yNodes: seq<real>, x: real, y: real)
    requires Grid(grid, xNodes, yNodes)
    requires forall j, i :: 0 <= j < |yNodes| && 0 <= i < |xNodes| ==> grid[j][i] == p.Value(xNodes[i], yNodes[j])
    ensures At(grid, xNodes, yNodes, x, y) == p.Value(Clip(xNodes, x), Clip(yNodes, y))
  {
    hide Locate, Clip, RowAt, Bilinear.Value, Blend;
    var c := Locate(yNodes, y);
    assert forall i :: 0 <= i < |xNodes| ==> grid[c.lower][i] == p.Value(xNodes[i], yNodes[c.lower]);
    assert forall i :: 0 <= i < |xNodes| ==> grid[c.lower + 1][i] == p.Value(xNodes[i], yNodes[c.lower + 1]);
    RowReproduces(p, grid[c.lower], xNodes, x, yNodes[c.lower]);
    RowReproduces(p, grid[c.lower + 1], xNodes, x, yNodes[c.lower + 1]);
    LocateBlends(yNodes, y);
    BlendValues(p, Clip(xNodes, x), yNodes[c.lower], yNodes[c.lower + 1], c.weight, Clip(yNodes, y));
  }

  lemma BlendValues(p: Bilinear, x: real, y0: real, y1: real, w: real, y: real)
    requires y0 * (1.0 - w) + y1 * w == y
    ensures Blend(p.Value(x, y0), p.Value(x, y1), w) == p.Value(x, y)
  {
    ValueInY(p, x, y0);
    ValueInY(p, x, y1);
    ValueInY(p, x, y);
    hide Bilinear.Value;
    BlendAffine(p.a + p.b * x, p.c + p.d * x, y0, y1, w);
  }

  lemma BlendBetween(a: real, b: real, w: real, low: real, high: real)
    requires 0.0 <= w <= 1.0 && low <= a <= high && low <= b <= high
    ensures low <= Blend(a, b, w) <= high
  {
    Times(a - low, 1.0 - w);
    Times(b - low, w);
    Times(high - a, 1.0 - w);
    Times(high - b, w);
    assert Blend(a, b, w) == low + ((a - low) * (1.0 - w) + (b - low) * w);
    assert Blend(a, b, w) == high - ((high - a) * (1.0 - w) + (high - b) * w);
  }

  /** Interpolated values stay within the range of the grid. */
  lemma AtBetween(grid: seq<seq<real>>, xNodes: seq<real>, yNodes: seq<real>, x: real, y: real, low: real, high: real)
    requires Grid(grid, xNodes, yNodes)
    requires forall j, i :: 0 <= j < |yNodes| && 0 <= i < |xNodes| ==> low <= grid[j][i] <= high
    ensures low <= At(grid, xNodes, yNodes, x, y) <= high
  {
    LocateBlends(xNodes, x);
    LocateBlends(yNodes, y);
    var cx, cy := Locate(xNodes, x), Locate(yNodes, y);
    hide Locate, Blend;
    forall j | 0 <= j < |grid|
      ensures low <= RowAt(grid[j], xNodes, x) <= high
    {
      BlendBetween(grid[j][cx.lower], grid[j][cx.lower + 1], cx.weight, low, high);
    }
    BlendBetween(RowAt(grid[cy.lower], xNodes, x), RowAt(grid[cy.lower + 1], xNodes, x), cy.weight, low, high);
  }

  // ----- the row kernel -----

  /** The horizontal interpolation of one node row at every column. */
  ghost function HorizontalRow(row: seq<real>, xNodes: seq<real>, width: nat): seq<real>
    requires Nodes(xNodes) && |row| == |xNodes|
  {
    seq(width, x requires 0 <= x < width => RowAt(row, xNodes, x as real))
  }

  /** The horizontal plan: the cell of every column. */
  ghost predicate Plan(plan: seq<Cell>, xNodes: seq<real>, width: nat)
    requires Nodes(xNodes)
  {
    |plan| == width && forall x :: 0 <= x < width ==> plan[x] == Locate(xNodes, x as real)
  }

  method Horizontal(row: seq<real>, xNodes: seq<real>, plan: seq<Cell>, target: array<real>)
    requires Nodes(xNodes) && |row| == |xNodes| && Plan(plan, xNodes, target.Length)
    modifies target
    ensures target[..] == HorizontalRow(row, xNodes, target.Length)
  {
    hide Locate, Blend;
    for x := 0 to target.Length
      invariant forall i :: 0 <= i < x ==> target[i] == RowAt(row, xNodes, i as real)
    {
      var c := plan[x];
      target[x] := Blend(row[c.lower], row[c.lower + 1], c.weight);
    }
  }

  /** A cached row holds the interpolation of the node it is tagged with; the tag |grid| means none. */
  ghost predicate Cached(grid: seq<seq<real>>, xNodes: seq<real>, yNodes: seq<real>, row: array<real>, node: nat)
    requires Grid(grid, xNodes, yNodes)
    reads row
  {
    node <= |grid| && (node < |grid| ==> row[..] == HorizontalRow(grid[node], xNodes, row.Length))
  }

  /** Bring the two cached rows to the node pair (lower, lower + 1). */
  method Fetch(grid: seq<seq<real>>, xNodes: seq<real>, yNodes: seq<real>, plan: seq<Cell>, lower: nat,
               top0: array<real>, topNode0: nat, bottom0: array<real>, bottomNode0: nat)
      returns (top: array<real>, topNode: nat, bottom: array<real>, bottomNode: nat)
    requires Grid(grid, xNodes, yNodes) && lower + 1 < |grid| && top0 != bottom0 && top0.Length == bottom0.Length
    requires Plan(plan, xNodes, top0.Length)
    requires Cached(grid, xNodes, yNodes, top0, topNode0) && Cached(grid, xNodes, yNodes, bottom0, bottomNode0)
    modifies top0, bottom0
    ensures (top == top0 && bottom == bottom0) || (top == bottom0 && bottom == top0)
    ensures topNode == lower && bottomNode == lower + 1
    ensures Cached(grid, xNodes, yNodes, top, topNode) && Cached(grid, xNodes, yNodes, bottom, bottomNode)
  {
    hide HorizontalRow;
    top, topNode, bottom, bottomNode := top0, topNode0, bottom0, bottomNode0;
    if lower != topNode {
      if lower == bottomNode {
        top, bottom := bottom, top;
        topNode, bottomNode := bottomNode, topNode;
      } else {
        Horizontal(grid[lower], xNodes, plan, top);
        topNode := lower;
      }
    }
    if lower + 1 != bottomNode {
      Horizontal(grid[lower + 1], xNodes, plan, bottom);
      bottomNode := lower + 1;
    }
  }

  /** Add the blend of the cached rows to one row of values. */
  method AddRow(values: array2<real>, row: nat, top: array<real>, bottom: array<real>, weight: real)
    requires row < values.Length0 && top.Length == bottom.Length == values.Length1
    modifies values
    ensures forall x: nat :: x < values.Length1 ==>
      values[row, x] == old(values[row, x]) + Blend(top[x], bottom[x], weight)
    ensures forall r: nat, x: nat :: r < values.Length0 && x < values.Length1 && r != row ==>
      values[r, x] == old(values[r, x])
  {
    hide Blend;
    for x := 0 to values.Length1
      invariant forall i: nat :: i < x ==> values[row, i] == old(values[row, i]) + Blend(top[i], bottom[i], weight)
      invariant forall i: nat :: x <= i < values.Length1 ==> values[row, i] == old(values[row, i])
      invariant forall r: nat, i: nat :: r < values.Length0 && i < values.Length1 && r != row ==>
        values[r, i] == old(values[r, i])
    {
      values[row, x] := values[row, x] + Blend(top[x], bottom[x], weight);
    }
  }

  /**
   One claimed range of rows, in any order of row numbers: whatever the cache held, every value gains the
   direct bilinear interpolation at its column and row number.
   */
  method AddRange(grid: seq<seq<real>>, xNodes: seq<real>, yNodes: seq<real>, rows: seq<int>, plan: seq<Cell>,
                  values: array2<real>,
                  begin: nat, end: nat)
    requires Grid(grid, xNodes, yNodes) && |rows| == values.Length0 && begin <= end <= |rows|
      && Plan(plan, xNodes, values.Length1)
    modifies values
    ensures forall r: nat, x: nat :: begin <= r < end && x < values.Length1 ==>
        values[r, x] == old(values[r, x]) + At(grid, xNodes, yNodes, x as real, rows[r] as real)
    ensures forall r: nat, x: nat :: r < values.Length0 && x < values.Length1 && !(begin <= r < end) ==>
      values[r, x] == old(values[r, x])
  {
    hide HorizontalRow, Blend, At, Locate, Plan, Grid, Cached;
    var top, bottom := new real[values.Length1], new real[values.Length1];
    var topNode: nat, bottomNode: nat := |yNodes|, |yNodes|;
    NothingCached(grid, xNodes, yNodes, top);
    NothingCached(grid, xNodes, yNodes, bottom);
    for row := begin to end
      invariant fresh(top) && fresh(bottom) && top != bottom && top.Length == bottom.Length == values.Length1
      invariant Cached(grid, xNodes, yNodes, top, topNode) && Cached(grid, xNodes, yNodes, bottom, bottomNode)
      invariant forall r: nat, x: nat :: begin <= r < row && x < values.Length1 ==>
          values[r, x] == old(values[r, x]) + At(grid, xNodes, yNodes, x as real, rows[r] as real)
      invariant forall r: nat, x: nat :: r < values.Length0 && x < values.Length1 && !(begin <= r < row) ==>
        values[r, x] == old(values[r, x])
    {
      top, topNode, bottom, bottomNode := AddInterpolated(grid, xNodes, yNodes, rows[row] as real, plan, values, row,
                                                          top, topNode, bottom, bottomNode);
    }
  }

  /** No node row has been interpolated yet. */
  lemma NothingCached(grid: seq<seq<real>>, xNodes: seq<real>, yNodes: seq<real>, row: array<real>)
    requires Grid(grid, xNodes, yNodes)
    ensures Cached(grid, xNodes, yNodes, row, |yNodes|)
  {
    hide HorizontalRow;
  }

  lemma LocateInside(grid: seq<seq<real>>, xNodes: seq<real>, yNodes: seq<real>, y: real)
    requires Grid(grid, xNodes, yNodes)
    ensures Nodes(yNodes) && Locate(yNodes, y).lower + 1 < |grid| == |yNodes|
  {}

  lemma CachedRow(grid: seq<seq<real>>, xNodes: seq<real>, yNodes: seq<real>, row: array<real>, node: nat)
    requires Grid(grid, xNodes, yNodes) && node < |grid| && Cached(grid, xNodes, yNodes, row, node)
    ensures row[..] == HorizontalRow(grid[node], xNodes, row.Length)
  {
    hide HorizontalRow;
  }

  /** One row of values gains the interpolation at its row number; the caches follow. */
  method AddInterpolated(grid: seq<seq<real>>, xNodes: seq<real>, yNodes: seq<real>, y: real, plan: seq<Cell>,
                         values: array2<real>, row: nat, top0: array<real>, topNode0: nat, bottom0: array<real>,
                         bottomNode0: nat)
      returns (top: array<real>, topNode: nat, bottom: array<real>, bottomNode: nat)
    requires Grid(grid, xNodes, yNodes) && row < values.Length0 && Plan(plan, xNodes, values.Length1)
    requires top0 != bottom0 && top0.Length == bottom0.Length == values.Length1
    requires Cached(grid, xNodes, yNodes, top0, topNode0) && Cached(grid, xNodes, yNodes, bottom0, bottomNode0)
    modifies values, top0, bottom0
    ensures (top == top0 && bottom == bottom0) || (top == bottom0 && bottom == top0)
    ensures Cached(grid, xNodes, yNodes, top, topNode) && Cached(grid, xNodes, yNodes, bottom, bottomNode)
    ensures forall x: nat :: x < values.Length1 ==>
      values[row, x] == old(values[row, x]) + At(grid, xNodes, yNodes, x as real, y)
    ensures forall r: nat, x: nat :: r < values.Length0 && x < values.Length1 && r != row ==>
      values[r, x] == old(values[r, x])
  {
    hide HorizontalRow, Blend, At, Locate, Plan, Grid, Cached;
    LocateInside(grid, xNodes, yNodes, y);
    var c := Locate(yNodes, y);
    top, topNode, bottom, bottomNode :=
      Fetch(grid, xNodes, yNodes, plan, c.lower, top0, topNode0, bottom0, bottomNode0);
    CachedRow(grid, xNodes, yNodes, top, topNode);
    CachedRow(grid, xNodes, yNodes, bottom, bottomNode);
    BlendOfRows(grid, xNodes, yNodes, y, top[..], bottom[..]);
    AddRow(values, row, top, bottom, c.weight);
  }

  lemma BlendOfRows(grid: seq<seq<real>>, xNodes: seq<real>, yNodes: seq<real>, y: real, top: seq<real>,
                    bottom: seq<real>)
    requires Grid(grid, xNodes, yNodes) && |top| == |bottom|
    requires top == HorizontalRow(grid[Locate(yNodes, y).lower], xNodes, |top|)
    requires bottom == HorizontalRow(grid[Locate(yNodes, y).lower + 1], xNodes, |top|)
    ensures forall x: nat :: x < |top| ==>
      Blend(top[x], bottom[x], Locate(yNodes, y).weight) == At(grid, xNodes, yNodes, x as real, y)
  {
    hide Locate;
  }

  /** AddOffsetGrid: the horizontal plan of every column, then all rows. */
  method AddOffsetGrid(grid: seq<seq<real>>, xNodes: seq<real>, yNodes: seq<real>, rows: seq<int>, values: array2<real>)
    requires Grid(grid, xNodes, yNodes) && |rows| == values.Length0
    modifies values
    ensures forall r: nat, x: nat :: r < values.Length0 && x < values.Length1 ==>
        values[r, x] == old(values[r, x]) + At(grid, xNodes, yNodes, x as real, rows[r] as real)
  {
    hide Locate, At;
    var plan := seq(values.Length1, x requires 0 <= x && Nodes(xNodes) => Locate(xNodes, x as real));
    AddRange(grid, xNodes, yNodes, rows, plan, values, 0, |rows|);
  }
}
