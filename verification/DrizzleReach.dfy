/**
 Which source pixels BandOnReference (native/src/DrizzleKernel.cpp) visits for a chunk of output rows, for any
 regular map with the frame on one side of its horizon, and when the ones it skips leave nothing on the chunk.
 */
module DrizzleReach {
  import opened PolygonClip
  import opened ConvexClip
  import opened DrizzleDrop
  import opened HomographyMaps
  import opened DrizzleSource
  import opened Reals

  function Larger(a: int, b: int): int { if a < b then b else a }

  function Smaller(a: int, b: int): int { if b < a then b else a }

  /** Ceiling of a real. */
  function Ceiling(x: real): int { -((-x).Floor) }

  /** Output rows [first, past) and the image columns, widened by the margin. */
  function TopEdge(r: Request, first: int): real requires r.Valid() { first as real - 0.5 - r.Margin() }

  function BottomEdge(r: Request, past: int): real requires r.Valid() { (past - 1) as real + 0.5 + r.Margin() }

  function LeftEdge(r: Request): real requires r.Valid() { -0.5 - r.Margin() }

  function RightEdge(r: Request): real requires r.Valid() { r.outputWidth as real - 0.5 + r.Margin() }

  predicate CentreInside(r: Request, c: Point, first: int, past: int)
    requires r.Valid()
  {
    TopEdge(r, first) <= c.y <= BottomEdge(r, past) && LeftEdge(r) <= c.x <= RightEdge(r)
  }

  // ----- how far a drop reaches -----

  /** The greatest distance of a corner from a point along one axis. */
  function Farthest(vertical: bool, q: seq<Point>, c: Point): real
    requires |q| == 4
  {
    var o := Coordinate(vertical, c);
    Max4(Abs(Coordinate(vertical, q[0]) - o), Abs(Coordinate(vertical, q[1]) - o),
         Abs(Coordinate(vertical, q[2]) - o), Abs(Coordinate(vertical, q[3]) - o))
  }

  /** How far the drop of one pixel extends from its mapped centre. */
  function ReachAt(r: Request, x: int, y: int, vertical: bool): real
    requires r.Valid() && r.Inside(x, y)
  {
    match r.kernel
    case PointDrop => 0.0
    case Square => Farthest(vertical, r.Drop(x, y), r.Centre(x, y))
    case Circular => r.DropRadius()
    case Gaussian => 3.0 * r.Sigma()
  }

  lemma WithinFarthest(vertical: bool, q: seq<Point>, c: Point, i: int)
    requires |q| == 4 && 0 <= i < 4
    ensures var o, e := Coordinate(vertical, c), Farthest(vertical, q, c); o - e <= Coordinate(vertical, q[i]) <= o + e
  {}

  lemma PixelRange(vertical: bool, q: seq<Point>, low: real, high: real)
    requires |q| == 4 && forall i :: 0 <= i < 4 ==> low <= Coordinate(vertical, q[i]) <= high
    ensures FirstPixel(vertical, q) as real > low - 0.5 && LastPixel(vertical, q) as real <= high + 0.5
  {}

  lemma SquareFar(q: seq<Point>, c: Point, e: real, f: real, ou: int, ov: int)
    requires |q| == 4 && e == Farthest(true, q, c) && f == Farthest(false, q, c)
    requires ov as real - c.y > f + 0.5 || c.y - ov as real > f + 0.5
      || ou as real - c.x > e + 0.5 || c.x - ou as real > e + 0.5
    ensures Overlap(q, ou, ov) == 0.0
  {
    forall i | 0 <= i < 4
      ensures c.x - e <= Coordinate(true, q[i]) <= c.x + e && c.y - f <= Coordinate(false, q[i]) <= c.y + f
    {
      WithinFarthest(true, q, c, i);
      WithinFarthest(false, q, c, i);
    }
    hide Farthest, FirstPixel, LastPixel, Overlap;
    PixelRange(true, q, c.x - e, c.x + e);
    PixelRange(false, q, c.y - f, c.y + f);
    OutsideBoxIsZero(q, ou, ov);
  }

  /** Nothing is left on a pixel farther from the mapped centre than the reach and half a pixel. */
  lemma FarIsNothing(r: Request, x: int, y: int, ou: int, ov: int)
    requires r.Valid() && r.Inside(x, y)
    requires var c := r.Centre(x, y);
        ov as real - c.y > ReachAt(r, x, y, false) + 0.5 || c.y - ov as real > ReachAt(r, x, y, false) + 0.5
        || ou as real - c.x > ReachAt(r, x, y, true) + 0.5 || c.x - ou as real > ReachAt(r, x, y, true) + 0.5
    ensures r.AreaOn(x, y, ou, ov) == 0.0
  {
    if r.kernel == Square {
      SquareFar(r.Drop(x, y), r.Centre(x, y), ReachAt(r, x, y, true), ReachAt(r, x, y, false), ou, ov);
    }
  }

  /** A distance inside a pixel that is less than what a margin lacks. */
  function Sliver(lack: real): (d: real)
    requires lack > 0.0
    ensures 0.0 < d < lack && d < 1.0
  {
    if lack < 1.0 then lack / 2.0 else 0.5
  }

  /** A source pixel that leaves nothing on the output rows [first, past). */
  ghost predicate Unreached(r: Request, x: int, y: int, first: int, past: int)
    requires r.Valid() && r.Inside(x, y)
  {
    forall ou, ov :: 0 <= ou < r.outputWidth && first <= ov < past ==> r.DropInk(x, y, ou, ov) == NOTHING
  }

  /** A centre outside the widened rows and columns, give or take a rise that the margin has room for. */
  lemma CentreCull(r: Request, x: int, y: int, first: int, past: int, rise: real)
    requires r.Valid() && r.Inside(x, y) && rise >= 0.0
    requires ReachAt(r, x, y, true) <= r.Margin() && ReachAt(r, x, y, false) + rise <= r.Margin()
    requires var c := r.Centre(x, y);
      c.y < TopEdge(r, first) + rise || c.y > BottomEdge(r, past) - rise || c.x < LeftEdge(r) || c.x > RightEdge(r)
    ensures Unreached(r, x, y, first, past)
  {
    hide Request.AreaOn, Request.SampleOf, Request.Centre, ReachAt, Request.Margin;
    forall ou, ov | 0 <= ou < r.outputWidth && first <= ov < past
      ensures r.DropInk(x, y, ou, ov) == NOTHING
    {
      FarIsNothing(r, x, y, ou, ov);
    }
  }

  // ----- the source rows -----

  /** The input row of an output point: a number, or what a division by zero makes of it. */
  datatype Row = At(y: real) | Infinite | Undefined

  function BackRow(g: Homography, p: Point): Row {
    if g.W(p.x, p.y) != 0.0 then At(g.Map(p.x, p.y).y)
    else if g.Y(p.x, p.y) != 0.0 then Infinite
    else Undefined
  }

  /** Least and greatest of the rows seen so far; comparisons with an undefined row change neither. */
  datatype Range = Unset | Finite(low: real, high: real) | Unbounded

  function Widen(range: Range, row: Row): Range {
    match row
    case Undefined => range
    case Infinite => Unbounded
    case At(y) =>
      match range
      case Unset => Finite(y, y)
      case Finite(low, high) => Finite(Min(low, y), Max(high, y))
      case Unbounded => Unbounded
  }

  function RangeOf(rows: seq<Row>): Range {
    if rows == [] then Unset else Widen(RangeOf(rows[..|rows| - 1]), rows[|rows| - 1])
  }

  /** The corners of the widened chunk. */
  function Corners(r: Request, first: int, past: int): (corners: seq<Point>)
    requires r.Valid()
    ensures |corners| == 4
  {
    [Point(LeftEdge(r), TopEdge(r, first)), Point(RightEdge(r), TopEdge(r, first)),
     Point(LeftEdge(r), BottomEdge(r, past)), Point(RightEdge(r), BottomEdge(r, past))]
  }

  function BackRows(g: Homography, corners: seq<Point>): seq<Row> {
    seq(|corners|, i requires 0 <= i < |corners| => BackRow(g, corners[i]))
  }

  /** The inverse of the forward map. */
  function Back(r: Request): Homography
    requires r.Valid()
  {
    r.forward.Inverse().value
  }

  function SourceRange(r: Request, first: int, past: int): Range
    requires r.Valid()
  {
    RangeOf(BackRows(Back(r), Corners(r, first, past)))
  }

  /** The first and the last source row to go through; all of them when the corners give no finite range. */
  function RowsFrom(r: Request, range: Range): int {
    var low := if range.Finite? then range.low else r.row0 as real;
    Larger(r.row0, low.Floor - 1)
  }

  function RowsTo(r: Request, range: Range): int {
    var last := r.row0 + |r.source| - 1;
    var high := if range.Finite? then range.high else last as real;
    Smaller(last, Ceiling(high) + 1)
  }

  predicate InRows(r: Request, y: int, first: int, past: int)
    requires r.Valid()
  {
    RowsFrom(r, SourceRange(r, first, past)) <= y <= RowsTo(r, SourceRange(r, first, past))
  }

  // ----- the run of columns -----

  /** The mapped row of (x, y). */
  function MappedRow(r: Request, x: int, y: int): real
    requires r.Valid() && r.Inside(x, y)
  {
    r.Centre(x, y).y
  }

  /** The columns of a source row to go through. */
  datatype Run = Skip | Columns(x0: int, x1: int) {
    predicate Has(x: int) { Columns? && x0 <= x <= x1 }
  }

  /** How much the mapped row may change along a source row that still counts as level. */
  const LEVEL: real := 0.000000001

  predicate IsRow(r: Request, y: int) { r.row0 <= y < r.row0 + |r.source| && r.width > 0 }

  predicate Level(r: Request, y: int)
    requires r.Valid() && IsRow(r, y)
  {
    Abs(MappedRow(r, r.width - 1, y) - MappedRow(r, 0, y)) <= LEVEL
  }

  lemma NonZeroQuotient(a: real, b: real)
    ensures a != 0.0 && b != 0.0 ==> a / b != 0.0
  {
    if a != 0.0 && b != 0.0 {
      var q := a / b;
      assert q * b == a;
    }
  }

  /** The slope of the straight line between the mapped ends of a row. */
  function Slope(r: Request, y: int): (slope: real)
    requires r.Valid() && IsRow(r, y) && !Level(r, y)
    ensures slope != 0.0 && r.width > 1
  {
    NonZeroQuotient(MappedRow(r, r.width - 1, y) - MappedRow(r, 0, y), r.width as real - 1.0);
    (MappedRow(r, r.width - 1, y) - MappedRow(r, 0, y)) / (r.width as real - 1.0)
  }

  /** Where that line is at a mapped row v. */
  function Solved(r: Request, y: int, v: real): real
    requires r.Valid() && IsRow(r, y) && !Level(r, y)
  {
    (v - MappedRow(r, 0, y)) / Slope(r, y)
  }

  function Slacked(width: nat, lo: real, hi: real): Run {
    if hi < -1.0 || lo > width as real then Skip
    else Columns(Larger(0, lo.Floor - 1), Smaller(width - 1, Ceiling(hi) + 1))
  }

  /**
   For the mapped rows from low to high: a level row is decided by its first pixel, a tilted one by the straight
   line, with a column of slack.
   */
  function RunBetween(r: Request, y: int, low: real, high: real): Run
    requires r.Valid() && IsRow(r, y)
  {
    if Level(r, y) then
      if low <= MappedRow(r, 0, y) <= high then Columns(0, r.width - 1) else Skip
    else
      Slacked(r.width, Min(Solved(r, y, low), Solved(r, y, high)), Max(Solved(r, y, low), Solved(r, y, high)))
  }

  function RunOf(r: Request, y: int, first: int, past: int): Run
    requires r.Valid() && IsRow(r, y)
  {
    RunBetween(r, y, TopEdge(r, first), BottomEdge(r, past))
  }

  /** The source pixels whose drops the loops of a chunk accumulate. */
  predicate Visited(r: Request, x: int, y: int, first: int, past: int)
    requires r.Valid() && r.Inside(x, y)
  {
    InRows(r, y, first, past) && RunOf(r, y, first, past).Has(x) && CentreInside(r, r.Centre(x, y), first, past)
  }

  // ----- when no row is missed -----

  /** The widened chunk lies on one side of the horizon of the inverse map. */
  predicate Clear(r: Request, first: int, past: int)
    requires r.Valid()
  {
    Sided(Back(r), LeftEdge(r), RightEdge(r), TopEdge(r, first), BottomEdge(r, past))
  }

  /** Y - y * W as the denominator of a map: its sign tells on which side of input row y a point maps back to. */
  function RowForm(g: Homography, y: real): Homography {
    Homography(1.0, 0.0, 0.0, 0.0, 1.0, 0.0, g.m3 - y * g.m6, g.m4 - y * g.m7, g.m5 - y * g.m8)
  }

  lemma SideIs(g: Homography, y: real, u: real, v: real)
    ensures RowForm(g, y).W(u, v) == g.Y(u, v) - y * g.W(u, v)
  {
    assert (g.m3 - y * g.m6) * u == g.m3 * u - y * (g.m6 * u);
    assert (g.m4 - y * g.m7) * v == g.m4 * v - y * (g.m7 * v);
  }

  lemma SideSign(yy: real, w: real, row: real, y: real)
    requires w != 0.0 && row == yy / w
    ensures row > y ==> if w > 0.0 then yy - y * w > 0.0 else yy - y * w < 0.0
    ensures row < y ==> if w > 0.0 then yy - y * w < 0.0 else yy - y * w > 0.0
    ensures row == y ==> yy - y * w == 0.0
  {
    assert row * w == yy;
    assert yy - y * w == (row - y) * w;
    Times(row - y, w);
    Times(row - y, -w);
    Times(y - row, w);
    Times(y - row, -w);
    hide *;
    assert (y - row) * w == -((row - y) * w) && (row - y) * -w == -((row - y) * w) && (y - row) * -w == (row - y) * w;
  }

  lemma CornerSide(g: Homography, u: real, v: real, y: real)
    requires g.W(u, v) != 0.0
    ensures var row, k := g.Map(u, v).y, RowForm(g, y).W(u, v);
      && (row > y ==> if g.W(u, v) > 0.0 then k > 0.0 else k < 0.0)
      && (row < y ==> if g.W(u, v) > 0.0 then k < 0.0 else k > 0.0)
      && (row == y ==> k == 0.0)
  {
    SideIs(g, y, u, v);
    hide Homography.W, Homography.Y;
    SideSign(g.Y(u, v), g.W(u, v), g.Map(u, v).y, y);
  }

  /** On one side of the horizon the rows of the corners enclose the row of every point between them. */
  lemma CornersBound(g: Homography, left: real, right: real, top: real, bottom: real, u: real, v: real)
    requires Sided(g, left, right, top, bottom) && left <= u <= right && top <= v <= bottom
    ensures g.W(left, top) != 0.0 && g.W(right, top) != 0.0 && g.W(left, bottom) != 0.0 && g.W(right, bottom) != 0.0
    ensures g.W(u, v) != 0.0
    ensures
      var a, b, c, d := g.Map(left, top).y, g.Map(right, top).y, g.Map(left, bottom).y, g.Map(right, bottom).y;
      Min4(a, b, c, d) <= g.Map(u, v).y <= Max4(a, b, c, d)
  {
    hide Homography.W, Homography.Map, RowForm;
    SidedInside(g, left, right, top, bottom, u, v);
    var y := g.Map(u, v).y;
    CornerSide(g, left, top, y);
    CornerSide(g, right, top, y);
    CornerSide(g, left, bottom, y);
    CornerSide(g, right, bottom, y);
    CornerSide(g, u, v, y);
    if Sided(RowForm(g, y), left, right, top, bottom) {
      SidedInside(RowForm(g, y), left, right, top, bottom, u, v);
      assert false;
    }
  }

  lemma FiniteRange(a: real, b: real, c: real, d: real)
    ensures RangeOf([At(a), At(b), At(c), At(d)]) == Finite(Min4(a, b, c, d), Max4(a, b, c, d))
  {
    var rows := [At(a), At(b), At(c), At(d)];
    assert rows[..3] == [At(a), At(b), At(c)] && rows[..3][..2] == [At(a), At(b)];
    assert rows[..3][..2][..1] == [At(a)] && rows[..3][..2][..1][..0] == [];
    assert RangeOf(rows[..3][..2][..1]) == Finite(a, a);
    assert RangeOf(rows[..3][..2]) == Finite(Min(a, b), Max(a, b));
    assert RangeOf(rows[..3]) == Finite(Min(Min(a, b), c), Max(Max(a, b), c));
  }

  lemma ClearRange(r: Request, first: int, past: int)
    requires r.Valid() && Clear(r, first, past)
    ensures var g, p := Back(r), Corners(r, first, past);
      && (forall i :: 0 <= i < 4 ==> g.W(p[i].x, p[i].y) != 0.0)
      && var a, b, c, d := g.Map(p[0].x, p[0].y).y, g.Map(p[1].x, p[1].y).y, g.Map(p[2].x, p[2].y).y,
        g.Map(p[3].x, p[3].y).y;
         SourceRange(r, first, past) == Finite(Min4(a, b, c, d), Max4(a, b, c, d))
  {
    hide Request.Valid, Homography.W, Homography.Map, Request.Margin, TopEdge, BottomEdge, LeftEdge, RightEdge, RangeOf;
    hide Back;
    var g, p := Back(r), Corners(r, first, past);
    var a, b, c, d := g.Map(p[0].x, p[0].y).y, g.Map(p[1].x, p[1].y).y, g.Map(p[2].x, p[2].y).y,
        g.Map(p[3].x, p[3].y).y;
    assert BackRows(g, p) == [At(a), At(b), At(c), At(d)];
    FiniteRange(a, b, c, d);
  }

  /** When the widened chunk is clear of the horizon, no source row with a centre inside it is left out. */
  lemma RowKept(r: Request, x: int, y: int, first: int, past: int)
    requires r.Valid() && r.Inside(x, y) && Clear(r, first, past) && CentreInside(r, r.Centre(x, y), first, past)
    ensures SourceRange(r, first, past).Finite?
    ensures SourceRange(r, first, past).low <= y as real <= SourceRange(r, first, past).high
    ensures InRows(r, y, first, past)
  {
    var g, c := Back(r), r.Centre(x, y);
    InFrame(r, x as real, y as real);
    InverseUndoesMap(r.forward, x as real, y as real);
    ClearRange(r, first, past);
    hide Request.Valid, Homography.W, Homography.Map, Request.Margin, TopEdge, BottomEdge, LeftEdge, RightEdge;
    hide Back, SourceRange, Min4, Max4, Request.Centre;
    CornersBound(g, LeftEdge(r), RightEdge(r), TopEdge(r, first), BottomEdge(r, past), c.x, c.y);
  }

  // ----- when no column is missed -----

  /** How far the mapped row of column x can leave the straight line, against the denominator there. */
  function Bend(r: Request, x: int): real {
    FromEnds(x as real, (r.width - 1) as real) * Abs(r.forward.m6)
  }

  /** The product of the distances from both ends. */
  function FromEnds(x: real, l: real): real { x * (l - x) }

  /** Along source row y the straight line meets every mapped row less than two columns away. */
  predicate Straight(r: Request, y: int) {
    forall x :: 0 <= x < r.width ==> Bend(r, x) < 2.0 * Abs(r.forward.W(x as real, y as real))
  }

  /**
   Mapped rows v and v0 with denominators w and w0 of one sign; denominators and numerators grow by k and m a column.
   */
  predicate Along(v: real, v0: real, w: real, w0: real, m: real, k: real, x: real) {
    && w == w0 + k * x && v * w == v0 * w0 + m * x
    && w != 0.0 && w0 != 0.0 && (w > 0.0 <==> w0 > 0.0)
  }

  lemma AbsProduct(a: real, b: real)
    ensures Abs(a * b) == Abs(a) * Abs(b)
  {
    assert -a * b == -(a * b) && a * -b == -(a * b) && -a * -b == a * b;
    Times(a, b);
    Times(-a, b);
    Times(a, -b);
    Times(-a, -b);
  }

  lemma Slopes(s: real, a: real, b: real)
    requires s > 0.0
    ensures s * a <= s * b <==> a <= b
  {
    if a <= b {
      Order(s, a, b);
    } else {
      Times(s, a - b);
      assert s * (a - b) == s * a - s * b;
    }
  }

  lemma WithinSlope(deviation: real, w: real, slope: real, bend: real)
    requires w != 0.0 && deviation * w == slope * bend && Abs(bend) <= Abs(w)
    ensures Abs(deviation) <= Abs(slope)
  {
    hide Abs;
    AbsProduct(deviation, w);
    AbsProduct(slope, bend);
    AbsPositive(w);
    AbsPositive(slope);
    ProductBound(Abs(deviation), Abs(w), Abs(slope), Abs(bend));
  }

  lemma ProductBound(d: real, w: real, s: real, b: real)
    requires w > 0.0 && s >= 0.0 && d * w == s * b && b <= w
    ensures d <= s
  {
    Times(s, w - b);
    if d > s {
      Times(d - s, w);
    }
  }

  predicate Chord(v0: real, vl: real, l: real, slope: real) { l != 0.0 && slope * l == vl - v0 }

  predicate Quotient(n: real, s: real, q: real) { s != 0.0 && q == n / s }

  lemma RowEnds(r: Request, x: int, y: int)
    requires r.Inside(x, y)
    ensures r.Inside(0, y) && r.Inside(r.width - 1, y) && 0 <= x < r.width && IsRow(r, y)
  {}

  lemma AlongIs(v: real, v0: real, w: real, w0: real, n: real, n0: real, m: real, k: real, x: real)
    requires w != 0.0 && w0 != 0.0 && (w > 0.0 <==> w0 > 0.0) && v == n / w && v0 == n0 / w0
    requires w == w0 + k * x && n == n0 + m * x
    ensures Along(v, v0, w, w0, m, k, x)
  {
    TimesQuotient(n, w, v);
    TimesQuotient(n0, w0, v0);
  }

  lemma Forms(h: Homography, x: real, y: real)
    ensures h.W(x, y) == h.W(0.0, y) + h.m6 * x && h.Y(x, y) == h.Y(0.0, y) + h.m3 * x
  {}

  /** Numerator and denominator of the mapped row grow linearly along a source row. */
  lemma RowForms(r: Request, x: int, y: int)
    requires r.Valid() && r.Inside(x, y) && r.Inside(0, y)
    ensures var h, yy := r.forward, y as real;
      Along(MappedRow(r, x, y), MappedRow(r, 0, y), h.W(x as real, yy), h.W(0.0, yy), h.m3, h.m6, x as real)
  {
    hide *;
    var h, yy := r.forward, y as real;
    InsideFrame(r, x, y);
    InsideFrame(r, 0, y);
    InFrame(r, x as real, yy);
    InFrame(r, 0.0, yy);
    MappedRowIs(r, x, y, x as real, yy);
    MappedRowIs(r, 0, y, 0.0, yy);
    Forms(h, x as real, yy);
    AlongIs(MappedRow(r, x, y), MappedRow(r, 0, y), h.W(x as real, yy), h.W(0.0, yy), h.Y(x as real, yy), h.Y(0.0, yy),
            h.m3, h.m6, x as real);
  }

  lemma InsideFrame(r: Request, x: int, y: int)
    requires r.Inside(x, y)
    ensures -1.0 <= x as real <= r.width as real && r.row0 as real - 1.0 <= y as real <= (r.row0 + |r.source|) as real
  {}

  lemma MappedRowIs(r: Request, x: int, y: int, xr: real, yr: real)
    requires r.Valid() && r.Inside(x, y) && xr == x as real && yr == y as real
    ensures r.forward.W(xr, yr) != 0.0 && MappedRow(r, x, y) == r.forward.Y(xr, yr) / r.forward.W(xr, yr)
  {
    InFrame(r, xr, yr);
    hide Request.Valid, Homography.W, Homography.Y;
  }

  lemma SlopeTimes(r: Request, y: int)
    requires r.Valid() && IsRow(r, y) && !Level(r, y)
    ensures Chord(MappedRow(r, 0, y), MappedRow(r, r.width - 1, y), (r.width - 1) as real, Slope(r, y))
    ensures Slope(r, y) != 0.0 && r.width > 1
  {
    hide Request.Valid, MappedRow, Level;
    TimesQuotient(MappedRow(r, r.width - 1, y) - MappedRow(r, 0, y), r.width as real - 1.0, Slope(r, y));
  }

  lemma EndsIdentity(v: real, v0: real, vl: real, w: real, w0: real, wl: real, m: real, k: real, x: real, l: real)
    requires Along(v, v0, w, w0, m, k, x) && Along(vl, v0, wl, w0, m, k, l)
    ensures (v - v0) * (l * w) == (vl - v0) * (x * wl)
  {
    assert v0 * w == v0 * w0 + v0 * k * x && v0 * wl == v0 * w0 + v0 * k * l;
    var n := m - v0 * k;
    assert (v - v0) * w == n * x;
    assert (vl - v0) * wl == n * l;
    assert (v - v0) * (l * w) == l * (n * x);
    assert (vl - v0) * (x * wl) == x * (n * l);
  }

  lemma EndsShare(w: real, w0: real, wl: real, k: real, x: real, l: real)
    requires w == w0 + k * x && wl == w0 + k * l && 0.0 <= x <= l
    requires w != 0.0 && w0 != 0.0 && wl != 0.0 && (w > 0.0 <==> w0 > 0.0) && (wl > 0.0 <==> w0 > 0.0)
    ensures Abs(x * wl) <= Abs(l * w)
    ensures if w > 0.0 then 0.0 <= x * wl <= l * w else l * w <= x * wl <= 0.0
  {
    assert l * w == x * wl + (l - x) * w0;
    Times(x, wl);
    Times(x, -wl);
    Times(l - x, w0);
    Times(l - x, -w0);
  }

  lemma NoFactor(a: real, w: real)
    requires w != 0.0
    ensures w * a == 0.0 ==> a == 0.0
    ensures a * w == 0.0 ==> a == 0.0
  {
    Times(a, w);
    Times(a, -w);
    Times(-a, w);
    Times(-a, -w);
  }

  /** The straight line meets the mapped row of column x at x times the ratio of the last denominator and x's. */
  lemma Meeting(v: real, v0: real, vl: real, w: real, w0: real, wl: real, m: real, k: real, x: real, l: real,
                slope: real, e: real)
    requires Along(v, v0, w, w0, m, k, x) && Along(vl, v0, wl, w0, m, k, l)
    requires Chord(v0, vl, l, slope) && Quotient(v - v0, slope, e)
    ensures e * w == x * wl
  {
    EndsIdentity(v, v0, vl, w, w0, wl, m, k, x, l);
    TimesQuotient(v - v0, slope, e);
    hide Along;
    Cancelled(e, slope, l, w, x * wl, v - v0, vl - v0);
  }

  lemma Cancelled(e: real, slope: real, l: real, w: real, p: real, n: real, d: real)
    requires slope != 0.0 && l != 0.0 && e * slope == n && slope * l == d && n * (l * w) == d * p
    ensures e * w == p
  {
    var f := slope * l;
    assert f * (e * w - p) == 0.0;
    NoFactor(slope, l);
    NoFactor(e * w - p, f);
  }

  lemma OffsetIs(e: real, w: real, w0: real, wl: real, k: real, x: real, l: real)
    requires e * w == x * wl && w == w0 + k * x && wl == w0 + k * l
    ensures (e - x) * w == FromEnds(x, l) * k
  {}

  lemma MeetingRange(e: real, w: real, w0: real, wl: real, k: real, x: real, l: real)
    requires e * w == x * wl && w == w0 + k * x && wl == w0 + k * l && 0.0 <= x <= l
    requires w != 0.0 && w0 != 0.0 && wl != 0.0 && (w > 0.0 <==> w0 > 0.0) && (wl > 0.0 <==> w0 > 0.0)
    ensures 0.0 <= e <= l
  {
    EndsShare(w, w0, wl, k, x, l);
    if w > 0.0 {
      ProductOrder(w, 0.0, e, 0.0, x * wl);
      ProductOrder(w, e, l, x * wl, l * w);
    } else {
      ProductOrder(w, l, e, l * w, x * wl);
      ProductOrder(w, e, 0.0, x * wl, 0.0);
    }
  }

  /** Dividing by a number keeps or turns the order. */
  lemma ProductOrder(s: real, a: real, b: real, low: real, high: real)
    requires s != 0.0 && s * a == low && s * b == high && low <= high
    ensures if s > 0.0 then a <= b else b <= a
  {
    if s > 0.0 {
      Slopes(s, a, b);
    } else {
      Slopes(-s, b, a);
      assert -s * a == -low && -s * b == -high;
    }
  }

  lemma LessThanTwo(p: real, q: real, b: real)
    requires q > 0.0 && p * q == b
    ensures p < 2.0 <==> b < 2.0 * q
  {
    if p < 2.0 {
      Times(2.0 - p, q);
    } else {
      Times(p - 2.0, q);
    }
  }

  lemma AbsPositive(w: real)
    ensures Abs(w) >= 0.0 && (w != 0.0 ==> Abs(w) > 0.0)
  {}

  /** The offset d of the meeting point, times the denominator, is the bend. */
  lemma OffsetBound(d: real, w: real, bend: real)
    requires w != 0.0 && d * w == bend
    ensures Abs(d) < 2.0 <==> Abs(bend) < 2.0 * Abs(w)
  {
    hide Abs;
    AbsProduct(d, w);
    AbsPositive(w);
    LessThanTwo(Abs(d), Abs(w), Abs(bend));
  }

  lemma BendIs(a: real, k: real)
    requires a >= 0.0
    ensures Abs(a * k) == a * Abs(k)
  {
    var p, q := a * k, Abs(k);
    Times(a, q);
    if k >= 0.0 {
      assert a * q == p == Abs(p);
    } else {
      assert a * q == -p == Abs(p);
    }
    assert Abs(p) == a * q;
  }

  /** Where the line meets the mapped row of column x: in the row, and off by the bend over the denominator. */
  lemma MeetingPoint(r: Request, x: int, y: int)
    requires r.Valid() && r.Inside(x, y) && IsRow(r, y) && !Level(r, y)
    ensures var e := Solved(r, y, MappedRow(r, x, y));
      && 0.0 <= e <= (r.width - 1) as real
      && (Abs(e - x as real) < 2.0 <==> Bend(r, x) < 2.0 * Abs(r.forward.W(x as real, y as real)))
  {
    hide *;
    RowEnds(r, x, y);
    BendOf(r, x);
    var h, xr, l, yy := r.forward, x as real, (r.width - 1) as real, y as real;
    var e := Solved(r, y, MappedRow(r, x, y));
    RowForms(r, x, y);
    RowForms(r, r.width - 1, y);
    SlopeTimes(r, y);
    SolvedIs(r, y, MappedRow(r, x, y));
    MeetingScalar(MappedRow(r, x, y), MappedRow(r, 0, y), MappedRow(r, r.width - 1, y), h.W(xr, yy), h.W(0.0, yy),
                  h.W(l, yy), h.m3, h.m6, xr, l, Slope(r, y), e, Bend(r, x));
  }

  predicate BendFrom(bend: real, x: real, l: real, k: real) { bend == FromEnds(x, l) * Abs(k) }

  lemma BendOf(r: Request, x: int)
    ensures BendFrom(Bend(r, x), x as real, (r.width - 1) as real, r.forward.m6)
  {}

  lemma BendBound(bend: real, x: real, l: real, k: real)
    requires BendFrom(bend, x, l, k) && 0.0 <= x <= l
    ensures Abs(FromEnds(x, l) * k) == bend
  {
    Times(x, l - x);
    BendIs(FromEnds(x, l), k);
  }

  lemma MeetingScalar(v: real, v0: real, vl: real, w: real, w0: real, wl: real, m: real, k: real, x: real, l: real,
                      slope: real, e: real, bend: real)
    requires Along(v, v0, w, w0, m, k, x) && Along(vl, v0, wl, w0, m, k, l) && 0.0 <= x <= l
    requires Chord(v0, vl, l, slope) && Quotient(v - v0, slope, e) && BendFrom(bend, x, l, k)
    ensures 0.0 <= e <= l && (Abs(e - x) < 2.0 <==> bend < 2.0 * Abs(w))
  {
    hide Chord, Quotient, Abs, FromEnds, BendFrom;
    Meeting(v, v0, vl, w, w0, wl, m, k, x, l, slope, e);
    MeetingRange(e, w, w0, wl, k, x, l);
    OffsetIs(e, w, w0, wl, k, x, l);
    OffsetBound(e - x, w, FromEnds(x, l) * k);
    BendBound(bend, x, l, k);
  }

  lemma SolvedIs(r: Request, y: int, v: real)
    requires r.Valid() && IsRow(r, y) && !Level(r, y)
    ensures r.Inside(0, y) && Quotient(v - MappedRow(r, 0, y), Slope(r, y), Solved(r, y, v))
  {
    hide Request.Valid, MappedRow, Level;
  }

  lemma TiltedRun(r: Request, y: int, low: real, high: real)
    requires r.Valid() && IsRow(r, y) && !Level(r, y)
    ensures var a, b := Solved(r, y, low), Solved(r, y, high);
      RunBetween(r, y, low, high) == Slacked(r.width, Min(a, b), Max(a, b))
  {
    hide Request.Valid, MappedRow, Level, Solved, Slacked;
  }

  /** How many mapped rows the line's offset at column x is worth, beyond the two columns the slack makes up for. */
  function Overshoot(r: Request, x: int, y: int): real
    requires r.Valid() && r.Inside(x, y) && IsRow(r, y) && !Level(r, y)
  {
    (Abs(Solved(r, y, MappedRow(r, x, y)) - x as real) - 2.0) * Abs(Slope(r, y))
  }

  /** Which edge of a chunk can cost column x its place in the run: the low one or the high one. */
  predicate LowDecides(r: Request, x: int, y: int)
    requires r.Valid() && r.Inside(x, y) && IsRow(r, y) && !Level(r, y)
  {
    (Solved(r, y, MappedRow(r, x, y)) > x as real) == (Slope(r, y) > 0.0)
  }

  /** The distance from a mapped row v between low and high to the edge that decides. */
  function EdgeRoom(lowDecides: bool, low: real, v: real, high: real): real {
    if lowDecides then v - low else high - v
  }

  lemma SlackedIff(width: nat, lo: real, hi: real, x: int, e: real)
    requires 0 <= x < width && lo <= e <= hi && 0.0 <= e <= (width - 1) as real
    ensures Slacked(width, lo, hi).Has(x) <==> lo < x as real + 2.0 && hi > x as real - 2.0
  {}

  lemma StrictSlopes(s: real, a: real, b: real)
    requires s > 0.0
    ensures a < b <==> s * a < s * b
  {
    Slopes(s, b, a);
  }

  /** For a rising line. */
  lemma RisingSlack(s: real, e: real, x: real, a: real, b: real, below: real, above: real)
    requires s > 0.0 && below >= 0.0 && above >= 0.0 && s * a == s * e - below && s * b == s * e + above
    ensures a <= e <= b
    ensures a < x + 2.0 && b > x - 2.0 <==> (Abs(e - x) - 2.0) * s < if e > x then below else above
  {
    Slopes(s, a, e);
    Slopes(s, e, b);
    StrictSlopes(s, a, x + 2.0);
    StrictSlopes(s, x - 2.0, b);
    assert s * (x + 2.0) == s * x + 2.0 * s && s * (x - 2.0) == s * x - 2.0 * s;
    assert (e - x - 2.0) * s == s * e - s * x - 2.0 * s && (x - e - 2.0) * s == s * x - s * e - 2.0 * s;
  }

  lemma Negated(s: real, a: real, n: real)
    requires s * a == n
    ensures -s * a == -n
  {}

  /** The solved columns a and b of the edges leave x in the slack's reach. */
  lemma SlackScalar(s: real, e: real, x: real, a: real, b: real, below: real, above: real)
    requires s != 0.0 && below >= 0.0 && above >= 0.0 && s * a == s * e - below && s * b == s * e + above
    ensures Min(a, b) <= e <= Max(a, b)
    ensures Min(a, b) < x + 2.0 && Max(a, b) > x - 2.0
      <==> (Abs(e - x) - 2.0) * Abs(s) < if (e > x) == (s > 0.0) then below else above
  {
    if s > 0.0 {
      RisingSlack(s, e, x, a, b, below, above);
    } else {
      Negated(s, e, s * e);
      Negated(s, a, s * a);
      Negated(s, b, s * b);
      RisingSlack(-s, e, x, b, a, above, below);
      if e == x {
        Negated(s, 2.0, s * 2.0);
      }
    }
  }

  predicate OvershootFrom(over: real, e: real, x: real, s: real) { over == (Abs(e - x) - 2.0) * Abs(s) }

  /** The same from the quotients the columns are solved with. */
  lemma SlackQuotients(s: real, e: real, x: real, a: real, b: real, low: real, v: real, high: real, v0: real,
                       over: real)
    requires Quotient(low - v0, s, a) && Quotient(v - v0, s, e) && Quotient(high - v0, s, b) && low <= v <= high
    requires OvershootFrom(over, e, x, s)
    ensures Min(a, b) <= e <= Max(a, b)
    ensures Min(a, b) < x + 2.0 && Max(a, b) > x - 2.0 <==> over < EdgeRoom((e > x) == (s > 0.0), low, v, high)
  {
    TimesQuotient(low - v0, s, a);
    TimesQuotient(v - v0, s, e);
    TimesQuotient(high - v0, s, b);
    SlackScalar(s, e, x, a, b, v - low, high - v);
  }

  /** A column that maps between low and high is in the run exactly when its overshoot is less than the edge's room. */
  lemma RunHasIff(r: Request, x: int, y: int, low: real, high: real)
    requires r.Valid() && r.Inside(x, y) && IsRow(r, y) && !Level(r, y) && low <= MappedRow(r, x, y) <= high
    ensures RunBetween(r, y, low, high).Has(x)
      <==> Overshoot(r, x, y) < EdgeRoom(LowDecides(r, x, y), low, MappedRow(r, x, y), high)
  {
    RowEnds(r, x, y);
    OvershootIs(r, x, y);
    hide *;
    var v, v0, s := MappedRow(r, x, y), MappedRow(r, 0, y), Slope(r, y);
    var a, b, e := Solved(r, y, low), Solved(r, y, high), Solved(r, y, v);
    TiltedRun(r, y, low, high);
    MeetingPoint(r, x, y);
    SolvedIs(r, y, low);
    SolvedIs(r, y, high);
    SolvedIs(r, y, v);
    SlackQuotients(s, e, x as real, a, b, low, v, high, v0, Overshoot(r, x, y));
    SlackedIff(r.width, Min(a, b), Max(a, b), x, e);
  }

  lemma RoomIs(lowDecides: bool, low: real, v: real, high: real)
    ensures EdgeRoom(lowDecides, low, v, high) == if lowDecides then v - low else high - v
  {}

  lemma OvershootIs(r: Request, x: int, y: int)
    requires r.Valid() && r.Inside(x, y) && IsRow(r, y) && !Level(r, y)
    ensures var e := Solved(r, y, MappedRow(r, x, y));
      && OvershootFrom(Overshoot(r, x, y), e, x as real, Slope(r, y))
      && LowDecides(r, x, y) == ((e > x as real) == (Slope(r, y) > 0.0))
  {
    hide Request.Valid, MappedRow, Level, Solved, Slope;
  }

  /** Nothing overshoots at a column where the row is straight. */
  lemma OvershootSign(r: Request, x: int, y: int)
    requires r.Valid() && r.Inside(x, y) && IsRow(r, y) && !Level(r, y)
    ensures Overshoot(r, x, y) < 0.0 <==> Bend(r, x) < 2.0 * Abs(r.forward.W(x as real, y as real))
  {
    hide *;
    OvershootIs(r, x, y);
    MeetingPoint(r, x, y);
    SlopeTimes(r, y);
    OvershootNegative(Overshoot(r, x, y), Solved(r, y, MappedRow(r, x, y)), x as real, Slope(r, y));
  }

  lemma OvershootNegative(over: real, e: real, x: real, s: real)
    requires OvershootFrom(over, e, x, s) && s != 0.0
    ensures over < 0.0 <==> Abs(e - x) < 2.0
  {
    AbsPositive(s);
    NegativeProduct(Abs(e - x) - 2.0, Abs(s), over);
  }

  lemma NegativeProduct(a: real, t: real, p: real)
    requires t > 0.0 && p == a * t
    ensures p < 0.0 <==> a < 0.0
  {
    if a < 0.0 {
      Times(-a, t);
      assert -a * t == -p;
    } else {
      Times(a, t);
    }
  }

  lemma BendSmall(r: Request, x: int, y: int)
    requires Straight(r, y) && 0 <= x < r.width
    ensures Bend(r, x) < 2.0 * Abs(r.forward.W(x as real, y as real))
  {}

  /** The run of a tilted straight row holds every column that maps between low and high. */
  lemma RunKept(r: Request, x: int, y: int, low: real, high: real)
    requires r.Valid() && r.Inside(x, y) && IsRow(r, y) && Straight(r, y) && !Level(r, y)
    requires low <= MappedRow(r, x, y) <= high
    ensures RunBetween(r, y, low, high).Has(x)
  {
    RowEnds(r, x, y);
    hide *;
    RunHasIff(r, x, y, low, high);
    OvershootSign(r, x, y);
    BendSmall(r, x, y);
    RoomIs(LowDecides(r, x, y), low, MappedRow(r, x, y), high);
  }

  // ----- level rows -----

  /** Between the ends of a row the mapped row lies between the mapped ends. */
  lemma EndsBound(v: real, v0: real, vl: real, w: real, w0: real, wl: real, m: real, k: real, x: real, l: real)
    requires Along(v, v0, w, w0, m, k, x) && Along(vl, v0, wl, w0, m, k, l) && 0.0 <= x <= l
    ensures Abs(v - v0) <= Abs(vl - v0)
  {
    hide Abs;
    EndsIdentity(v, v0, vl, w, w0, wl, m, k, x, l);
    EndsShare(w, w0, wl, k, x, l);
    hide Along;
    if l == 0.0 {
      FirstColumn(v, v0, vl, w, w0, wl, m, k, x, l);
    } else {
      NoFactor(w, l);
      WithinSlope(v - v0, l * w, vl - v0, x * wl);
    }
  }

  lemma FirstColumn(v: real, v0: real, vl: real, w: real, w0: real, wl: real, m: real, k: real, x: real, l: real)
    requires Along(v, v0, w, w0, m, k, x) && x == 0.0
    ensures Abs(v - v0) <= Abs(vl - v0)
  {
    assert (v - v0) * w == 0.0;
    NoFactor(v - v0, w);
  }

  /** What the test of a level row's first pixel can be off by: its rise, if the row is level at all. */
  function RowRise(r: Request, y: int): (rise: real)
    requires r.Valid() && IsRow(r, y)
    ensures rise >= 0.0
  {
    if Level(r, y) then Abs(MappedRow(r, r.width - 1, y) - MappedRow(r, 0, y)) else 0.0
  }

  lemma LevelRow(r: Request, x: int, y: int)
    requires r.Valid() && r.Inside(x, y) && IsRow(r, y) && Level(r, y)
    ensures Abs(MappedRow(r, x, y) - MappedRow(r, 0, y)) <= RowRise(r, y)
  {
    RowEnds(r, x, y);
    RiseIs(r, y);
    hide *;
    var h, l, yy := r.forward, (r.width - 1) as real, y as real;
    RowForms(r, x, y);
    RowForms(r, r.width - 1, y);
    EndsBound(MappedRow(r, x, y), MappedRow(r, 0, y), MappedRow(r, r.width - 1, y),
              h.W(x as real, yy), h.W(0.0, yy), h.W(l, yy), h.m3, h.m6, x as real, l);
  }

  lemma RiseIs(r: Request, y: int)
    requires r.Valid() && IsRow(r, y) && Level(r, y)
    ensures RowRise(r, y) == Abs(MappedRow(r, r.width - 1, y) - MappedRow(r, 0, y))
  {
    hide Request.Valid, MappedRow, Abs;
  }

  // ----- when nothing is lost -----

  /** The margin has room for the drop, and for what the test of a level row can be off by. */
  predicate RoomAt(r: Request, x: int, y: int)
    requires r.Valid() && r.Inside(x, y) && IsRow(r, y)
  {
    ReachAt(r, x, y, true) <= r.Margin() && ReachAt(r, x, y, false) + RowRise(r, y) <= r.Margin()
  }

  /** The margin has room for the drop, and for what the line of a tilted row overshoots by. */
  predicate SlackAt(r: Request, x: int, y: int)
    requires r.Valid() && r.Inside(x, y) && IsRow(r, y)
  {
    Level(r, y) || Overshoot(r, x, y) + ReachAt(r, x, y, false) < r.Margin()
  }

  /** The widened band is clear of the horizon, and the margin has room for every drop whatever the tests are off by. */
  ghost predicate Gentle(r: Request)
    requires r.Valid()
  {
    && Clear(r, r.outputRow0, r.outputRow0 + r.outputRows)
    && forall x, y :: r.Inside(x, y) && IsRow(r, y) ==> RoomAt(r, x, y) && SlackAt(r, x, y)
  }

  lemma StraightHasSlack(r: Request, x: int, y: int)
    requires r.Valid() && r.Inside(x, y) && IsRow(r, y) && Straight(r, y) && ReachAt(r, x, y, false) <= r.Margin()
    ensures SlackAt(r, x, y)
  {
    hide Request.Valid, Straight, Bend, Level, Overshoot, ReachAt, Request.Margin, Homography.W;
    if !Level(r, y) {
      OvershootSign(r, x, y);
      BendSmall(r, x, y);
    }
  }

  /** A pixel that a tilted row's run leaves out leaves nothing on the chunk. */
  lemma RunCull(r: Request, x: int, y: int, first: int, past: int)
    requires r.Valid() && r.Inside(x, y) && IsRow(r, y) && !Level(r, y) && RoomAt(r, x, y) && SlackAt(r, x, y)
    requires CentreInside(r, r.Centre(x, y), first, past) && !RunOf(r, y, first, past).Has(x)
    ensures Unreached(r, x, y, first, past)
  {
    var low, high := TopEdge(r, first), BottomEdge(r, past);
    var v := MappedRow(r, x, y);
    RunHasIff(r, x, y, low, high);
    hide Request.Valid, Level, Overshoot, LowDecides, RunBetween, Request.Margin, ReachAt, RowRise, Request.Centre;
    hide TopEdge, BottomEdge, LeftEdge, RightEdge, Unreached;
    assert EdgeRoom(LowDecides(r, x, y), low, v, high) < r.Margin() - ReachAt(r, x, y, false);
    CentreCull(r, x, y, first, past, r.Margin() - ReachAt(r, x, y, false));
  }

  predicate ChunkOf(r: Request, first: int, past: int) {
    r.outputRow0 <= first < past <= r.outputRow0 + r.outputRows
  }

  lemma ClearChunk(r: Request, first: int, past: int)
    requires r.Valid() && Clear(r, r.outputRow0, r.outputRow0 + r.outputRows) && ChunkOf(r, first, past)
    ensures Clear(r, first, past)
  {
    MarginPositive(r);
    hide Request.Valid, Request.Margin, Sided, Back;
    SidedPart(Back(r), LeftEdge(r), RightEdge(r), TopEdge(r, r.outputRow0),
              BottomEdge(r, r.outputRow0 + r.outputRows), TopEdge(r, first), BottomEdge(r, past));
  }

  lemma MarginPositive(r: Request)
    requires r.Valid()
    ensures r.Margin() > 1.0 && r.outputWidth > 0
  {
    ScalePositive(r);
    SigmaPositive(r);
    hide Request.LocalScale;
  }

  /** A level row that is skipped for its first pixel leaves nothing on the chunk. */
  lemma LevelCull(r: Request, x: int, y: int, first: int, past: int)
    requires r.Valid() && r.Inside(x, y) && IsRow(r, y) && RoomAt(r, x, y)
    requires Level(r, y) && RunOf(r, y, first, past).Skip?
    ensures Unreached(r, x, y, first, past)
  {
    LevelRow(r, x, y);
    hide Request.Valid, Request.Centre, TopEdge, BottomEdge, LeftEdge, RightEdge, ReachAt, RowRise, Level;
    hide Request.Margin, Unreached;
    CentreCull(r, x, y, first, past, RowRise(r, y));
  }

  /** Under a gentle map every pixel that is not visited leaves nothing on the chunk. */
  lemma SkippedIsUnreached(r: Request, x: int, y: int, first: int, past: int)
    requires r.Valid() && Gentle(r) && r.Inside(x, y) && ChunkOf(r, first, past) && !Visited(r, x, y, first, past)
    ensures Unreached(r, x, y, first, past)
  {
    RowEnds(r, x, y);
    assert RoomAt(r, x, y) && SlackAt(r, x, y);
    ClearChunk(r, first, past);
    hide Request.Valid, Request.Centre, SlackAt, Clear, InRows, Level, TopEdge, BottomEdge, LeftEdge, RightEdge;
    hide Unreached, Gentle, ReachAt, RowRise, Request.Margin, Solved, Slope, Slacked;
    if !CentreInside(r, r.Centre(x, y), first, past) {
      CentreCull(r, x, y, first, past, 0.0);
    } else {
      RowKept(r, x, y, first, past);
      if !Level(r, y) {
        RunCull(r, x, y, first, past);
      } else {
        LevelCull(r, x, y, first, past);
      }
    }
  }
}
