/**
 Exactly which pixels of a source row the tests on columns of BandOnReference (native/src/DrizzleKernel.cpp) lose,
 for every regular map. The statements range over all shifts of the output: a shift moves where the drops of the
 row fall in the chunk and nothing else.
 */
module DrizzleRows {
  import opened PolygonClip
  import opened ConvexClip
  import opened CornerArea
  import opened DrizzleDrop
  import opened HomographyMaps
  import opened DrizzleSource
  import opened DrizzleReach
  import opened Reals

  // ----- a shifted request -----

  function Plus(p: Point, d: Point): Point { Point(p.x + d.x, p.y + d.y) }

  /** A map followed by a shift. */
  function Shift(h: Homography, d: Point): Homography {
    Homography(h.m0 + d.x * h.m6, h.m1 + d.x * h.m7, h.m2 + d.x * h.m8,
               h.m3 + d.y * h.m6, h.m4 + d.y * h.m7, h.m5 + d.y * h.m8, h.m6, h.m7, h.m8)
  }

  function Moved(r: Request, d: Point): Request {
    r.(forward := Shift(r.forward, d))
  }

  lemma ShiftedForm(t: real, a: real, b: real, c: real, k: real, l: real, m: real, x: real, y: real, w: real)
    requires w == k * x + l * y + m
    ensures (a + t * k) * x + (b + t * l) * y + (c + t * m) == (a * x + b * y + c) + t * w
  {
    assert (a + t * k) * x == a * x + t * (k * x) && (b + t * l) * y == b * y + t * (l * y);
    assert t * w == t * (k * x) + t * (l * y) + t * m;
  }

  lemma ShiftedQuotient(n: real, w: real, t: real, m: real)
    requires w != 0.0 && m == n + t * w
    ensures m / w == n / w + t
  {
    var p, q := n / w, m / w;
    TimesQuotient(n, w, p);
    TimesQuotient(m, w, q);
    assert (q - p - t) * w == 0.0;
    NoFactor(q - p - t, w);
  }

  lemma ShiftForms(h: Homography, d: Point, x: real, y: real, w: real)
    requires w == h.W(x, y)
    ensures var g := Shift(h, d); g.W(x, y) == w && g.X(x, y) == h.X(x, y) + d.x * w && g.Y(x, y) == h.Y(x, y) + d.y * w
  {
    WIs(h, x, y, w);
    ShiftedForm(d.x, h.m0, h.m1, h.m2, h.m6, h.m7, h.m8, x, y, w);
    ShiftedForm(d.y, h.m3, h.m4, h.m5, h.m6, h.m7, h.m8, x, y, w);
  }

  lemma WIs(h: Homography, x: real, y: real, w: real)
    requires w == h.W(x, y)
    ensures w == h.m6 * x + h.m7 * y + h.m8
  {}

  lemma ShiftPoint(h: Homography, d: Point, x: real, y: real)
    requires h.W(x, y) != 0.0
    ensures Shift(h, d).W(x, y) == h.W(x, y) && Shift(h, d).Map(x, y) == Plus(h.Map(x, y), d)
  {
    hide Homography.X, Homography.Y, Homography.W, Shift;
    var g, w := Shift(h, d), h.W(x, y);
    ShiftForms(h, d, x, y, w);
    ShiftedQuotient(h.X(x, y), w, d.x, g.X(x, y));
    ShiftedQuotient(h.Y(x, y), w, d.y, g.Y(x, y));
  }

  lemma ShiftedMinor(t: real, b: real, c: real, l: real, m: real)
    ensures (b + t * l) * m - (c + t * m) * l == b * m - c * l
  {
    assert (b + t * l) * m == b * m + t * (l * m) && (c + t * m) * l == c * l + t * (l * m);
  }

  lemma ExpandedRow(t: real, a: real, b: real, c: real, k: real, l: real, m: real, p: real, q: real, s: real)
    requires k * p - l * q + m * s == 0.0
    ensures (a + t * k) * p - (b + t * l) * q + (c + t * m) * s == a * p - b * q + c * s
  {
    assert (a + t * k) * p == a * p + t * (k * p) && (b + t * l) * q == b * q + t * (l * q)
      && (c + t * m) * s == c * s + t * (m * s);
    assert t * (k * p) - t * (l * q) + t * (m * s) == t * (k * p - l * q + m * s);
  }

  lemma SameRowTwice(d: real, e: real, f: real, k: real, l: real, m: real)
    ensures k * (e * m - f * l) - l * (d * m - f * k) + m * (d * l - e * k) == 0.0
  {}

  /** A shift does not change the determinant. */
  lemma ShiftDet(h: Homography, d: Point)
    ensures Shift(h, d).Det() == h.Det()
  {
    ShiftedMinor(d.y, h.m4, h.m5, h.m7, h.m8);
    ShiftedMinor(d.y, h.m3, h.m5, h.m6, h.m8);
    ShiftedMinor(d.y, h.m3, h.m4, h.m6, h.m7);
    SameRowTwice(h.m3, h.m4, h.m5, h.m6, h.m7, h.m8);
    var p, q, s := h.m4 * h.m8 - h.m5 * h.m7, h.m3 * h.m8 - h.m5 * h.m6, h.m3 * h.m7 - h.m4 * h.m6;
    ExpandedRow(d.x, h.m0, h.m1, h.m2, h.m6, h.m7, h.m8, p, q, s);
  }

  lemma MovedIsValid(r: Request, d: Point)
    requires r.Valid()
    ensures Moved(r, d).Valid()
  {
    ShiftDet(r.forward, d);
    SameSides(r.forward, d, -1.0, r.width as real, r.row0 as real - 1.0, (r.row0 + |r.source|) as real);
    hide Homography.Det, Sided, Shift, NodeGrid.Valid;
  }

  lemma SameSides(h: Homography, d: Point, left: real, right: real, top: real, bottom: real)
    ensures Sided(Shift(h, d), left, right, top, bottom) == Sided(h, left, right, top, bottom)
  {
    hide Homography.W;
    SameW(h, d, left, top);
    SameW(h, d, right, top);
    SameW(h, d, left, bottom);
    SameW(h, d, right, bottom);
  }

  lemma SameW(h: Homography, d: Point, x: real, y: real)
    ensures Shift(h, d).W(x, y) == h.W(x, y)
  {}

  lemma StepShift(c: Point, cx: Point, cy: Point, d: Point)
    ensures StepArea(Plus(c, d), Plus(cx, d), Plus(cy, d)) == StepArea(c, cx, cy)
  {}

  lemma MovedJacobian(r: Request, d: Point)
    requires r.Valid()
    ensures Moved(r, d).Valid() && Moved(r, d).Jacobian() == r.Jacobian()
  {
    MovedIsValid(r, d);
    var x, y := 0.5 * (r.width as real - 1.0), r.row0 as real + 0.5 * (|r.source| as real - 1.0);
    InFrame(r, x, y);
    InFrame(r, x + 1.0, y);
    InFrame(r, x, y + 1.0);
    var h := r.forward;
    ShiftPoint(h, d, x, y);
    ShiftPoint(h, d, x + 1.0, y);
    ShiftPoint(h, d, x, y + 1.0);
    StepShift(h.Map(x, y), h.Map(x + 1.0, y), h.Map(x, y + 1.0), d);
    hide Homography.W, Homography.Map, Shift, Plus, StepArea, Request.Valid;
  }

  lemma MovedScale(r: Request, d: Point)
    requires r.Valid()
    ensures Moved(r, d).Valid() && Moved(r, d).LocalScale() == r.LocalScale()
  {
    hide Request.Valid, Request.LocalScale, Request.Jacobian, Shift;
    MovedJacobian(r, d);
    ScaleIs(r, r.Jacobian());
    ScaleIs(Moved(r, d), r.Jacobian());
  }

  lemma MovedMargin(r: Request, d: Point)
    requires r.Valid()
    ensures Moved(r, d).Valid() && Moved(r, d).Margin() == r.Margin()
  {
    hide Request.Valid, Request.LocalScale, Shift, Request.Margin, Request.DropRadius, Request.Sigma;
    MovedScale(r, d);
    MarginIs(r, r.LocalScale(), r.pixfrac);
    MarginIs(Moved(r, d), r.LocalScale(), r.pixfrac);
  }

  /** The centre and the corners of a drop move along. */
  lemma MovedPixel(r: Request, d: Point, x: int, y: int)
    requires r.Valid() && r.Inside(x, y)
    ensures var q := Moved(r, d);
      && q.Valid() && q.Inside(x, y) && q.Centre(x, y) == Plus(r.Centre(x, y), d)
      && |q.Drop(x, y)| == |r.Drop(x, y)| == 4
      && forall i :: 0 <= i < 4 ==> q.Drop(x, y)[i] == Plus(r.Drop(x, y)[i], d)
  {
    MovedIsValid(r, d);
    DropOneSided(r, x, y);
    InFrame(r, x as real, y as real);
    var h, half := r.forward, r.Half();
    ShiftPoint(h, d, x as real, y as real);
    ShiftPoint(h, d, x as real - half, y as real - half);
    ShiftPoint(h, d, x as real + half, y as real - half);
    ShiftPoint(h, d, x as real + half, y as real + half);
    ShiftPoint(h, d, x as real - half, y as real + half);
    hide Homography.W, Homography.Map, Shift, Plus, Request.Valid, Request.Half;
  }

  lemma MovedEnds(r: Request, d: Point, x: int, y: int)
    requires r.Valid() && r.Inside(x, y)
    ensures var q := Moved(r, d); q.Valid() && q.Inside(x, y) && MappedRow(q, x, y) == MappedRow(r, x, y) + d.y
  {
    MovedPixel(r, d, x, y);
    hide Request.Valid, Request.Centre, Request.Drop, Moved;
  }

  /** The slope of a row stays. */
  lemma MovedRow(r: Request, d: Point, y: int)
    requires r.Valid() && IsRow(r, y)
    ensures var q := Moved(r, d);
      && q.Valid() && IsRow(q, y) && (Level(q, y) <==> Level(r, y)) && (!Level(r, y) ==> Slope(q, y) == Slope(r, y))
  {
    MovedEnds(r, d, 0, y);
    MovedEnds(r, d, r.width - 1, y);
    hide Request.Valid, MappedRow, Abs;
  }

  lemma SameQuotient(n: real, m: real, s: real, p: real, q: real)
    requires n == m && Quotient(n, s, p) && Quotient(m, s, q)
    ensures p == q
  {}

  lemma SameOvershoot(a: real, b: real, e: real, x: real, s: real)
    requires OvershootFrom(a, e, x, s) && OvershootFrom(b, e, x, s)
    ensures a == b
  {}

  /** And with it what the line overshoots by. */
  lemma MovedRun(r: Request, d: Point, x: int, y: int)
    requires r.Valid() && r.Inside(x, y) && IsRow(r, y) && !Level(r, y)
    ensures var q := Moved(r, d);
      && q.Valid() && q.Inside(x, y) && IsRow(q, y) && !Level(q, y)
      && Overshoot(q, x, y) == Overshoot(r, x, y) && LowDecides(q, x, y) == LowDecides(r, x, y)
  {
    RowEnds(r, x, y);
    hide *;
    var q := Moved(r, d);
    MovedRow(r, d, y);
    MovedEnds(r, d, x, y);
    MovedEnds(r, d, 0, y);
    var v, w := MappedRow(r, x, y), MappedRow(q, x, y);
    SolvedIs(r, y, v);
    SolvedIs(q, y, w);
    SameQuotient(v - MappedRow(r, 0, y), w - MappedRow(q, 0, y), Slope(r, y), Solved(r, y, v), Solved(q, y, w));
    OvershootIs(r, x, y);
    OvershootIs(q, x, y);
    SameOvershoot(Overshoot(r, x, y), Overshoot(q, x, y), Solved(r, y, v), x as real, Slope(r, y));
  }

  // ----- which centres the run holds -----

  /** The run of a row holds every column whose centre lies inside the widened chunk. */
  ghost predicate RunHolds(q: Request, y: int, first: int, past: int) {
    && q.Valid() && IsRow(q, y)
    && forall x :: q.Inside(x, y) && CentreInside(q, q.Centre(x, y), first, past) ==> RunOf(q, y, first, past).Has(x)
  }

  lemma Edges(r: Request, first: int, past: int)
    requires r.Valid()
    ensures TopEdge(r, first) == first as real - 0.5 - r.Margin()
    ensures BottomEdge(r, past) == past as real - 0.5 + r.Margin()
    ensures LeftEdge(r) == -0.5 - r.Margin() && RightEdge(r) == r.outputWidth as real - 0.5 + r.Margin()
    ensures r.Margin() > 1.0 && r.outputWidth > 0
  {
    MarginPositive(r);
    hide Request.Valid, Request.Margin;
  }

  /** A column with its centre inside is in the run of a tilted row exactly when it overshoots by less than its room. */
  lemma RunOfHasIff(q: Request, x: int, y: int, first: int, past: int)
    requires q.Valid() && q.Inside(x, y) && IsRow(q, y) && !Level(q, y)
    requires TopEdge(q, first) <= MappedRow(q, x, y) <= BottomEdge(q, past)
    ensures var room := EdgeRoom(LowDecides(q, x, y), TopEdge(q, first), MappedRow(q, x, y), BottomEdge(q, past));
      RunOf(q, y, first, past).Has(x) <==> Overshoot(q, x, y) < room
  {
    RunHasIff(q, x, y, TopEdge(q, first), BottomEdge(q, past));
    hide Request.Valid, MappedRow, Level, Overshoot, LowDecides, RunBetween, TopEdge, BottomEdge;
  }

  lemma CentreRow(q: Request, x: int, y: int)
    requires q.Valid() && q.Inside(x, y)
    ensures MappedRow(q, x, y) == q.Centre(x, y).y
  {}

  lemma StraightKeeps(r: Request, d: Point, x: int, y: int, first: int, past: int)
    requires r.Valid() && r.Inside(x, y) && IsRow(r, y) && !Level(r, y) && Straight(r, y)
    ensures var q := Moved(r, d);
      && q.Valid() && q.Inside(x, y) && IsRow(q, y)
      && (CentreInside(q, q.Centre(x, y), first, past) ==> RunOf(q, y, first, past).Has(x))
  {
    var q := Moved(r, d);
    MovedRun(r, d, x, y);
    RowEnds(r, x, y);
    OvershootSign(r, x, y);
    BendSmall(r, x, y);
    CentreRow(q, x, y);
    hide Request.Valid, Request.Centre, MappedRow, Level, Overshoot, LowDecides, RunOf, Moved, Straight, TopEdge,
         BottomEdge, LeftEdge, RightEdge, Bend, Homography.W;
    if CentreInside(q, q.Centre(x, y), first, past) {
      RunOfHasIff(q, x, y, first, past);
    }
  }

  /** A shift that puts the centre of column x on the deciding edge of the widened chunk. */
  function ToEdge(r: Request, x: int, y: int, first: int, past: int): Point
    requires r.Valid() && r.Inside(x, y) && IsRow(r, y) && !Level(r, y)
  {
    var c := r.Centre(x, y);
    Point(-c.x, (if LowDecides(r, x, y) then TopEdge(r, first) else BottomEdge(r, past)) - c.y)
  }

  /** At a column where the row is not straight that shift loses the centre. */
  lemma BentLoses(r: Request, x: int, y: int, first: int, past: int)
    requires r.Valid() && r.Inside(x, y) && IsRow(r, y) && !Level(r, y) && first < past && Overshoot(r, x, y) >= 0.0
    ensures var q := Moved(r, ToEdge(r, x, y, first, past));
      && q.Valid() && q.Inside(x, y) && IsRow(q, y)
      && CentreInside(q, q.Centre(x, y), first, past) && !RunOf(q, y, first, past).Has(x)
  {
    var d := ToEdge(r, x, y, first, past);
    var q := Moved(r, d);
    MovedRun(r, d, x, y);
    MovedPixel(r, d, x, y);
    MovedMargin(r, d);
    Edges(r, first, past);
    Edges(q, first, past);
    CentreRow(q, x, y);
    hide Request.Valid, Request.Centre, Request.Drop, MappedRow, Level, Overshoot, LowDecides, RunOf, TopEdge,
         BottomEdge, LeftEdge, RightEdge, Request.Margin, Shift;
    RunOfHasIff(q, x, y, first, past);
  }

  /**
   In every chunk, whatever the shift of the output, the run of a tilted row holds every column with a centre inside
   the widened chunk exactly when the row is straight.
   */
  lemma RunIffStraight(r: Request, y: int, first: int, past: int)
    requires r.Valid() && IsRow(r, y) && !Level(r, y) && first < past
    ensures Straight(r, y) <==> forall d :: RunHolds(Moved(r, d), y, first, past)
  {
    hide Request.Valid, Request.Centre, Level, RunOf, Overshoot, CentreInside, Moved, Bend, Homography.W, ToEdge;
    if Straight(r, y) {
      forall d
        ensures RunHolds(Moved(r, d), y, first, past)
      {
        MovedRow(r, d, y);
        var q := Moved(r, d);
        forall x | q.Inside(x, y) && CentreInside(q, q.Centre(x, y), first, past)
          ensures RunOf(q, y, first, past).Has(x)
        {
          MovedFrame(r, d, x, y);
          StraightKeeps(r, d, x, y, first, past);
        }
      }
    } else {
      var x :| 0 <= x < r.width && !(Bend(r, x) < 2.0 * Abs(r.forward.W(x as real, y as real)));
      assert r.Inside(x, y);
      OvershootSign(r, x, y);
      BentLoses(r, x, y, first, past);
      assert !RunHolds(Moved(r, ToEdge(r, x, y, first, past)), y, first, past);
    }
  }

  lemma MovedFrame(r: Request, d: Point, x: int, y: int)
    ensures Moved(r, d).Inside(x, y) == r.Inside(x, y)
  {}

  // ----- which drops the tests on columns keep -----

  /** How far a quadrilateral extends from a point to the higher or to the lower side of one axis. */
  function Beyond(vertical: bool, higher: bool, q: seq<Point>, c: Point): real
    requires |q| == 4
  {
    var o := Coordinate(vertical, c);
    var a, b := Coordinate(vertical, q[0]) - o, Coordinate(vertical, q[1]) - o;
    var e, f := Coordinate(vertical, q[2]) - o, Coordinate(vertical, q[3]) - o;
    if higher then Max4(a, b, e, f) else -Min4(a, b, e, f)
  }

  /** How far the drop of one pixel extends from its mapped centre. */
  function Overhang(r: Request, x: int, y: int, vertical: bool, higher: bool): real
    requires r.Valid() && r.Inside(x, y)
  {
    var q, c := r.Drop(x, y), r.Centre(x, y);
    Beyond(vertical, higher, q, c)
  }

  lemma OverhangIs(r: Request, x: int, y: int, vertical: bool, higher: bool)
    requires r.Valid() && r.Inside(x, y)
    ensures |r.Drop(x, y)| == 4
    ensures Overhang(r, x, y, vertical, higher) == Beyond(vertical, higher, r.Drop(x, y), r.Centre(x, y))
  {}

  lemma BeyondBounds(vertical: bool, q: seq<Point>, c: Point)
    requires |q| == 4
    ensures var o := Coordinate(vertical, c);
      Bounded(vertical, o - Beyond(vertical, false, q, c), o + Beyond(vertical, true, q, c), q)
  {}

  /** Some corner extends as far. */
  lemma BeyondCorner(vertical: bool, higher: bool, q: seq<Point>, c: Point) returns (i: nat)
    requires |q| == 4
    ensures i < 4
    ensures Coordinate(vertical, q[i]) - Coordinate(vertical, c)
         == if higher then Beyond(vertical, true, q, c) else -Beyond(vertical, false, q, c)
  {
    var b := if higher then Beyond(vertical, true, q, c) else -Beyond(vertical, false, q, c);
    var o := Coordinate(vertical, c);
    i := if Coordinate(vertical, q[0]) - o == b then 0 else if Coordinate(vertical, q[1]) - o == b then 1
         else if Coordinate(vertical, q[2]) - o == b then 2 else 3;
  }

  lemma MovedCoordinate(vertical: bool, p: Point, d: Point)
    ensures Coordinate(vertical, Plus(p, d)) == Coordinate(vertical, p) + Coordinate(vertical, d)
  {}

  lemma MovedBeyond(vertical: bool, higher: bool, q: seq<Point>, c: Point, p: seq<Point>, d: Point)
    requires |q| == |p| == 4 && forall i :: 0 <= i < 4 ==> p[i] == Plus(q[i], d)
    ensures Beyond(vertical, higher, p, Plus(c, d)) == Beyond(vertical, higher, q, c)
  {
    hide Coordinate, Plus, Max4, Min4;
    MovedCoordinate(vertical, c, d);
    MovedCoordinate(vertical, q[0], d);
    MovedCoordinate(vertical, q[1], d);
    MovedCoordinate(vertical, q[2], d);
    MovedCoordinate(vertical, q[3], d);
  }

  lemma MovedOverhang(r: Request, d: Point, x: int, y: int, vertical: bool, higher: bool)
    requires r.Valid() && r.Inside(x, y)
    ensures var q := Moved(r, d);
      q.Valid() && q.Inside(x, y) && Overhang(q, x, y, vertical, higher) == Overhang(r, x, y, vertical, higher)
  {
    MovedPixel(r, d, x, y);
    hide Request.Valid, Request.Drop, Request.Centre, Beyond, Plus, Moved;
    MovedBeyond(vertical, higher, r.Drop(x, y), r.Centre(x, y), Moved(r, d).Drop(x, y), d);
  }

  /** A drop that leaves something on a pixel reaches over its borders. */
  lemma InkReaches(r: Request, x: int, y: int, ou: int, ov: int)
    requires r.Valid() && r.Inside(x, y) && r.kernel == Square && r.AreaOn(x, y, ou, ov) > 0.0
    ensures var c := r.Centre(x, y);
      && c.x + Overhang(r, x, y, true, true) > ou as real - 0.5
      && c.x - Overhang(r, x, y, true, false) < ou as real + 0.5
      && c.y + Overhang(r, x, y, false, true) > ov as real - 0.5
      && c.y - Overhang(r, x, y, false, false) < ov as real + 0.5
  {
    var q, c := r.Drop(x, y), r.Centre(x, y);
    AreaIsOverlap(r, x, y, ou, ov);
    BeyondBounds(true, q, c);
    BeyondBounds(false, q, c);
    hide Request.Valid, Request.Drop, Request.Centre, Beyond, Overlap, Request.AreaOn, Bounded;
    var left, right := c.x - Overhang(r, x, y, true, false), c.x + Overhang(r, x, y, true, true);
    var top, bottom := c.y - Overhang(r, x, y, false, false), c.y + Overhang(r, x, y, false, true);
    if right <= ou as real - 0.5 || left >= ou as real + 0.5 {
      BesideColumn(left, right, q, ou, ov);
    }
    if bottom <= ov as real - 0.5 || top >= ov as real + 0.5 {
      BesideRow(top, bottom, q, ou, ov);
    }
  }

  lemma AreaIsOverlap(r: Request, x: int, y: int, ou: int, ov: int)
    requires r.Valid() && r.Inside(x, y) && r.kernel == Square
    ensures r.AreaOn(x, y, ou, ov) == Overlap(r.Drop(x, y), ou, ov)
  {}

  /** A shift that puts a corner of the drop strictly inside a pixel: the drop leaves some area on it. */
  lemma CornerTo(r: Request, x: int, y: int, i: nat, target: Point, ou: int, ov: int) returns (d: Point)
    requires r.Valid() && r.Inside(x, y) && r.kernel == Square && i < 4
    requires ou as real - 0.5 < target.x < ou as real + 0.5 && ov as real - 0.5 < target.y < ov as real + 0.5
    ensures |r.Drop(x, y)| == 4 && d == Point(target.x - r.Drop(x, y)[i].x, target.y - r.Drop(x, y)[i].y)
    ensures var q := Moved(r, d); q.Valid() && q.Inside(x, y) && q.AreaOn(x, y, ou, ov) > 0.0
  {
    d := Point(target.x - r.Drop(x, y)[i].x, target.y - r.Drop(x, y)[i].y);
    MovedPixel(r, d, x, y);
    var q := Moved(r, d);
    StrictDrop(q, x, y);
    AreaIsOverlap(q, x, y, ou, ov);
    hide Request.Valid, Request.Drop, Request.AreaOn, Orientation, Overlap, StrictQuad, Moved;
    assert q.Drop(x, y)[i] == target;
    QuadCornerOverlap(Orientation(q, x, y), q.Drop(x, y), i, ou, ov);
  }

  /** The pixel leaves some area on the chunk. */
  ghost predicate Inked(q: Request, x: int, y: int, first: int, past: int)
    requires q.Valid() && q.Inside(x, y)
  {
    exists ou, ov :: 0 <= ou < q.outputWidth && first <= ov < past && q.AreaOn(x, y, ou, ov) > 0.0
  }

  /** The two tests on columns: the run, and the centre inside the widened chunk. */
  predicate Passes(q: Request, x: int, y: int, first: int, past: int)
    requires q.Valid() && q.Inside(x, y) && IsRow(q, y)
  {
    RunOf(q, y, first, past).Has(x) && CentreInside(q, q.Centre(x, y), first, past)
  }

  /** How far a mapped row lies beyond the first pixel's, which stands for the whole of a level row. */
  function RiseAt(r: Request, x: int, y: int): real
    requires r.Valid() && r.Inside(x, y) && IsRow(r, y)
  {
    MappedRow(r, x, y) - MappedRow(r, 0, y)
  }

  /** The margin has room for the drop on every side, and on the deciding side for what the run is off by. */
  predicate PixelFits(r: Request, x: int, y: int)
    requires r.Valid() && r.Inside(x, y) && IsRow(r, y)
  {
    DropFits(r, x, y) && RunFits(r, x, y)
  }

  predicate DropFits(r: Request, x: int, y: int)
    requires r.Valid() && r.Inside(x, y)
  {
    && Overhang(r, x, y, true, true) <= r.Margin() && Overhang(r, x, y, true, false) <= r.Margin()
    && Overhang(r, x, y, false, true) <= r.Margin() && Overhang(r, x, y, false, false) <= r.Margin()
  }

  predicate RunFits(r: Request, x: int, y: int)
    requires r.Valid() && r.Inside(x, y) && IsRow(r, y)
  {
    if Level(r, y) then
      && Overhang(r, x, y, false, true) + RiseAt(r, x, y) <= r.Margin()
      && Overhang(r, x, y, false, false) - RiseAt(r, x, y) <= r.Margin()
    else Overhang(r, x, y, false, LowDecides(r, x, y)) + Overshoot(r, x, y) <= r.Margin()
  }

  lemma MovedFits(r: Request, d: Point, x: int, y: int)
    requires r.Valid() && r.Inside(x, y) && IsRow(r, y)
    ensures var q := Moved(r, d); q.Valid() && q.Inside(x, y) && IsRow(q, y) && PixelFits(q, x, y) == PixelFits(r, x, y)
  {
    MovedOverhang(r, d, x, y, true, true);
    MovedOverhang(r, d, x, y, true, false);
    MovedOverhang(r, d, x, y, false, true);
    MovedOverhang(r, d, x, y, false, false);
    MovedMargin(r, d);
    MovedRow(r, d, y);
    RowEnds(r, x, y);
    MovedEnds(r, d, x, y);
    MovedEnds(r, d, 0, y);
    hide Request.Valid, Overhang, Request.Margin, Level, Overshoot, LowDecides, MappedRow, Moved;
    if !Level(r, y) {
      MovedRun(r, d, x, y);
    }
  }

  lemma LevelRun(q: Request, x: int, y: int, first: int, past: int)
    requires q.Valid() && q.Inside(x, y) && IsRow(q, y) && Level(q, y)
    ensures RunOf(q, y, first, past).Has(x)
      <==> TopEdge(q, first) <= MappedRow(q, x, y) - RiseAt(q, x, y) <= BottomEdge(q, past)
  {
    RowEnds(q, x, y);
    hide Request.Valid, MappedRow, Level, TopEdge, BottomEdge;
  }

  lemma CoveredCentre(q: Request, x: int, y: int, first: int, past: int)
    requires q.Valid() && q.Inside(x, y) && q.kernel == Square && DropFits(q, x, y) && Inked(q, x, y, first, past)
    ensures CentreInside(q, q.Centre(x, y), first, past)
  {
    Edges(q, first, past);
    hide Request.Valid, Request.Centre, Request.AreaOn, Overhang, Request.Margin, TopEdge, BottomEdge, LeftEdge,
         RightEdge;
    var ou, ov :| 0 <= ou < q.outputWidth && first <= ov < past && q.AreaOn(x, y, ou, ov) > 0.0;
    InkReaches(q, x, y, ou, ov);
  }

  /** A fitting drop that leaves something on the chunk passes. */
  lemma FittingPasses(q: Request, x: int, y: int, first: int, past: int)
    requires q.Valid() && q.Inside(x, y) && IsRow(q, y) && q.kernel == Square && PixelFits(q, x, y)
    requires Inked(q, x, y, first, past)
    ensures Passes(q, x, y, first, past)
  {
    CoveredCentre(q, x, y, first, past);
    Edges(q, first, past);
    CentreRow(q, x, y);
    hide Request.Valid, Request.Centre, Request.AreaOn, Overhang, Request.Margin, Level, Overshoot, LowDecides,
         MappedRow, TopEdge, BottomEdge, LeftEdge, RightEdge, RunOf, RiseAt;
    var ou, ov :| 0 <= ou < q.outputWidth && first <= ov < past && q.AreaOn(x, y, ou, ov) > 0.0;
    InkReaches(q, x, y, ou, ov);
    if Level(q, y) {
      LevelRun(q, x, y, first, past);
    } else {
      RunOfHasIff(q, x, y, first, past);
    }
  }

  /** A pixel that leaves some area on the chunk, with its drop's far side d inside the chunk's border on one side. */
  ghost predicate Touches(r: Request, q: Request, x: int, y: int, first: int, past: int, vertical: bool, higher: bool,
                          d: real)
    requires r.Valid() && r.Inside(x, y)
  {
    && q.Valid() && q.Inside(x, y) && Inked(q, x, y, first, past)
    && var c, o := Coordinate(vertical, q.Centre(x, y)), Overhang(r, x, y, vertical, higher);
       var low, high := if vertical then -0.5 else first as real - 0.5,
         if vertical then r.outputWidth as real - 0.5 else past as real - 0.5;
       c == if higher then low + d - o else high - d + o
  }

  lemma OverhangCorner(r: Request, x: int, y: int, vertical: bool, higher: bool) returns (i: nat)
    requires r.Valid() && r.Inside(x, y)
    ensures i < 4 && |r.Drop(x, y)| == 4
    ensures var o := Overhang(r, x, y, vertical, higher);
      Coordinate(vertical, r.Drop(x, y)[i]) - Coordinate(vertical, r.Centre(x, y)) == if higher then o else -o
  {
    i := BeyondCorner(vertical, higher, r.Drop(x, y), r.Centre(x, y));
    hide Request.Valid, Request.Centre, Beyond, Coordinate;
  }

  lemma Touching(r: Request, x: int, y: int, first: int, past: int, vertical: bool, higher: bool, s: real)
      returns (d: Point)
    requires r.Valid() && r.Inside(x, y) && r.kernel == Square && first < past && 0.0 < s < 1.0
    ensures Touches(r, Moved(r, d), x, y, first, past, vertical, higher, s)
  {
    hide Request.Valid, Request.Drop, Request.Centre, Request.AreaOn, Overhang, Request.Margin;
    var i := OverhangCorner(r, x, y, vertical, higher);
    var ou := if vertical && !higher then r.outputWidth - 1 else 0;
    var ov := if !vertical && !higher then past - 1 else first;
    var side := if higher then s - 0.5 else 0.5 - s;
    var target := Point(ou as real + (if vertical then side else 0.0), ov as real + (if vertical then 0.0 else side));
    Edges(r, first, past);
    d := CornerTo(r, x, y, i, target, ou, ov);
    MovedPixel(r, d, x, y);
    assert Inked(Moved(r, d), x, y, first, past);
  }

  /** A side of the drop that the margin does not cover lets the centre test fail. */
  lemma UncoveredFails(r: Request, x: int, y: int, first: int, past: int, vertical: bool, higher: bool)
      returns (d: Point)
    requires r.Valid() && r.Inside(x, y) && IsRow(r, y) && r.kernel == Square && first < past
    requires Overhang(r, x, y, vertical, higher) > r.Margin()
    ensures Loses(Moved(r, d), x, y, first, past)
  {
    var s := Sliver(Overhang(r, x, y, vertical, higher) - r.Margin());
    d := Touching(r, x, y, first, past, vertical, higher, s);
    var q := Moved(r, d);
    MovedMargin(r, d);
    MovedRow(r, d, y);
    Edges(q, first, past);
    hide Request.Valid, Request.Centre, Inked, Overhang, Request.Margin, RunOf, TopEdge, BottomEdge, LeftEdge,
         RightEdge, Level, Slope;
  }

  /** A pixel of the row that leaves some area on the chunk fails one of the two tests. */
  ghost predicate Loses(q: Request, x: int, y: int, first: int, past: int) {
    q.Valid() && q.Inside(x, y) && IsRow(q, y) && Inked(q, x, y, first, past) && !Passes(q, x, y, first, past)
  }

  lemma LevelFails(r: Request, x: int, y: int, first: int, past: int) returns (d: Point)
    requires r.Valid() && r.Inside(x, y) && IsRow(r, y) && r.kernel == Square && first < past
    requires Level(r, y) && !RunFits(r, x, y)
    ensures Loses(Moved(r, d), x, y, first, past)
  {
    var rise, m := RiseAt(r, x, y), r.Margin();
    var higher := Overhang(r, x, y, false, true) + rise > m;
    var lack := (if higher then Overhang(r, x, y, false, true) + rise else Overhang(r, x, y, false, false) - rise) - m;
    d := Touching(r, x, y, first, past, false, higher, Sliver(lack));
    var q := Moved(r, d);
    MovedMargin(r, d);
    MovedRow(r, d, y);
    RowEnds(r, x, y);
    MovedEnds(r, d, x, y);
    MovedEnds(r, d, 0, y);
    Edges(q, first, past);
    LevelRun(q, x, y, first, past);
    CentreRow(q, x, y);
    hide Request.Valid, Request.Centre, Inked, Overhang, Request.Margin, RunOf, TopEdge, BottomEdge, LeftEdge,
         RightEdge, Level, Slope, MappedRow, Moved;
  }

  lemma TiltedFails(r: Request, x: int, y: int, first: int, past: int) returns (d: Point)
    requires r.Valid() && r.Inside(x, y) && IsRow(r, y) && r.kernel == Square && first < past
    requires !Level(r, y) && !RunFits(r, x, y)
    ensures Loses(Moved(r, d), x, y, first, past)
  {
    var higher := LowDecides(r, x, y);
    d := Touching(r, x, y, first, past, false, higher,
                  Sliver(Overhang(r, x, y, false, higher) + Overshoot(r, x, y) - r.Margin()));
    var q := Moved(r, d);
    MovedMargin(r, d);
    MovedRun(r, d, x, y);
    Edges(q, first, past);
    CentreRow(q, x, y);
    hide Request.Valid, Request.Centre, Inked, Overhang, Request.Margin, RunOf, TopEdge, BottomEdge, LeftEdge,
         RightEdge, Level, Slope, MappedRow, Moved, LowDecides, Overshoot;
    if CentreInside(q, q.Centre(x, y), first, past) {
      RunOfHasIff(q, x, y, first, past);
    }
  }

  /** In every shift of the output the pixels of a row that leave some area on the chunk pass the tests on columns. */
  ghost predicate RowKeeps(q: Request, y: int, first: int, past: int) {
    && q.Valid() && IsRow(q, y)
    && forall x :: q.Inside(x, y) && Inked(q, x, y, first, past) ==> Passes(q, x, y, first, past)
  }

  predicate RowFits(r: Request, y: int)
    requires r.Valid() && IsRow(r, y)
  {
    forall x :: 0 <= x < r.width && r.Inside(x, y) ==> PixelFits(r, x, y)
  }

  /**
   The tests on columns lose no square drop of a row, in any chunk and whatever the shift of the output, exactly when
   the margin has room for every drop of the row and for what its run is off by.
   */
  lemma RowKeepsIffFits(r: Request, y: int, first: int, past: int)
    requires r.Valid() && IsRow(r, y) && r.kernel == Square && first < past
    ensures RowFits(r, y) <==> forall d :: RowKeeps(Moved(r, d), y, first, past)
  {
    hide Request.Valid, PixelFits, Inked, Passes, Moved;
    if RowFits(r, y) {
      forall d
        ensures RowKeeps(Moved(r, d), y, first, past)
      {
        var q := Moved(r, d);
        MovedRow(r, d, y);
        forall x | q.Inside(x, y) && Inked(q, x, y, first, past)
          ensures Passes(q, x, y, first, past)
        {
          MovedFrame(r, d, x, y);
          RowEnds(r, x, y);
          FitKeeps(r, d, x, y, first, past);
        }
      }
    } else {
      var x :| 0 <= x < r.width && r.Inside(x, y) && !PixelFits(r, x, y);
      var d := NoFitLoses(r, x, y, first, past);
      assert !RowKeeps(Moved(r, d), y, first, past);
    }
  }

  lemma FitKeeps(r: Request, d: Point, x: int, y: int, first: int, past: int)
    requires r.Valid() && r.Inside(x, y) && IsRow(r, y) && r.kernel == Square && PixelFits(r, x, y)
    ensures var q := Moved(r, d);
      && q.Valid() && q.Inside(x, y) && IsRow(q, y)
      && (Inked(q, x, y, first, past) ==> Passes(q, x, y, first, past))
  {
    MovedFits(r, d, x, y);
    var q := Moved(r, d);
    hide Request.Valid, PixelFits, Passes, Inked;
    if Inked(q, x, y, first, past) {
      FittingPasses(q, x, y, first, past);
    }
  }

  lemma NoFitLoses(r: Request, x: int, y: int, first: int, past: int) returns (d: Point)
    requires r.Valid() && r.Inside(x, y) && IsRow(r, y) && r.kernel == Square && first < past && !PixelFits(r, x, y)
    ensures Loses(Moved(r, d), x, y, first, past)
  {
    hide Request.Valid, Overhang, Request.Margin, RunFits, Loses, Moved;
    if !RunFits(r, x, y) {
      if Level(r, y) {
        d := LevelFails(r, x, y, first, past);
      } else {
        d := TiltedFails(r, x, y, first, past);
      }
    } else if Overhang(r, x, y, true, true) > r.Margin() {
      d := UncoveredFails(r, x, y, first, past, true, true);
    } else if Overhang(r, x, y, true, false) > r.Margin() {
      d := UncoveredFails(r, x, y, first, past, true, false);
    } else if Overhang(r, x, y, false, true) > r.Margin() {
      d := UncoveredFails(r, x, y, first, past, false, true);
    } else {
      d := UncoveredFails(r, x, y, first, past, false, false);
    }
  }

  // ----- a row whose run loses a drop that the centre test keeps -----

  /** When the margin covers a drop but not what its run is off by, it is the run that loses it. */
  lemma RunLoses(r: Request, x: int, y: int, first: int, past: int) returns (d: Point)
    requires r.Valid() && r.Inside(x, y) && IsRow(r, y) && r.kernel == Square && first < past
    requires !Level(r, y) && DropFits(r, x, y) && !RunFits(r, x, y)
    ensures Loses(Moved(r, d), x, y, first, past)
    ensures CentreInside(Moved(r, d), Moved(r, d).Centre(x, y), first, past)
    ensures !RunOf(Moved(r, d), y, first, past).Has(x)
  {
    hide Request.Valid, Request.Centre, RunFits, DropFits, Inked, RunOf, CentreInside, Level, Shift;
    d := TiltedFails(r, x, y, first, past);
    MovedDropFits(r, d, x, y);
    CoveredCentre(Moved(r, d), x, y, first, past);
  }

  lemma MovedDropFits(r: Request, d: Point, x: int, y: int)
    requires r.Valid() && r.Inside(x, y)
    ensures var q := Moved(r, d); q.Valid() && q.Inside(x, y) && DropFits(q, x, y) == DropFits(r, x, y)
  {
    MovedOverhang(r, d, x, y, true, true);
    MovedOverhang(r, d, x, y, true, false);
    MovedOverhang(r, d, x, y, false, true);
    MovedOverhang(r, d, x, y, false, false);
    MovedMargin(r, d);
    hide Request.Valid, Overhang, Request.Margin, Moved;
  }

  const BENT := Homography(1.0, 0.0, 0.0, 100.0, 1.0, 0.0, 1.0, 0.0, 2.0)

  /** One row of nine pixels under a strongly projective map. */
  ghost predicate IsBent(r: Request) {
    && r.Valid() && r.kernel == Square && r.forward == BENT && r.width == 9 && r.row0 == 0 && |r.source| == 1
    && r.pixfrac == 0.1
  }

  lemma BentAt(x: real, y: real, p: Point)
    requires x > -2.0 && p.x * (x + 2.0) == x && p.y * (x + 2.0) == 100.0 * x + y
    ensures BENT.W(x, y) != 0.0 && BENT.Map(x, y) == p
  {
    var w := x + 2.0;
    assert BENT.W(x, y) == w && BENT.X(x, y) == x && BENT.Y(x, y) == 100.0 * x + y;
    hide Homography.W, Homography.X, Homography.Y;
    QuotientIs(x, w, p.x);
    QuotientIs(100.0 * x + y, w, p.y);
  }

  lemma QuotientIs(n: real, w: real, p: real)
    requires w != 0.0 && p * w == n
    ensures n / w == p
  {
    TimesQuotient(n, w, n / w);
    assert (n / w - p) * w == 0.0;
    NoFactor(n / w - p, w);
  }

  lemma JacobianAt(r: Request, x: real, y: real, c: Point, cx: Point, cy: Point)
    requires r.Valid() && x == 0.5 * (r.width as real - 1.0) && y == r.row0 as real + 0.5 * (|r.source| as real - 1.0)
    requires var h := r.forward;
      && h.W(x, y) != 0.0 && h.W(x + 1.0, y) != 0.0 && h.W(x, y + 1.0) != 0.0
      && c == h.Map(x, y) && cx == h.Map(x + 1.0, y) && cy == h.Map(x, y + 1.0)
    ensures r.Jacobian() == Abs(StepArea(c, cx, cy))
  {
    hide Request.Valid, Homography.W, Homography.Map, StepArea;
  }

  lemma BentFrame(r: Request)
    requires IsBent(r)
    ensures r.Valid() && r.forward == BENT && 4.0 == 0.5 * (r.width as real - 1.0)
    ensures 0.0 == r.row0 as real + 0.5 * (|r.source| as real - 1.0)
    ensures IsRow(r, 0) && forall x :: r.Inside(x, 0) <==> 0 <= x < 9
  {
    hide Request.Valid;
  }

  lemma BentStep()
    ensures StepArea(Point(4.0 / 6.0, 400.0 / 6.0), Point(5.0 / 7.0, 500.0 / 7.0), Point(4.0 / 6.0, 401.0 / 6.0))
         == 1.0 / 126.0
  {}

  /** The area at the frame's centre is less than one, and so is the scale. */
  lemma BentMargin(r: Request)
    requires IsBent(r)
    ensures r.Valid() && 1.0 < r.Margin() < 2.0
  {
    hide *;
    BentFrame(r);
    MarginPositive(r);
    BentAt(4.0, 0.0, Point(4.0 / 6.0, 400.0 / 6.0));
    BentAt(5.0, 0.0, Point(5.0 / 7.0, 500.0 / 7.0));
    BentAt(4.0, 1.0, Point(4.0 / 6.0, 401.0 / 6.0));
    JacobianAt(r, 4.0, 0.0, Point(4.0 / 6.0, 400.0 / 6.0), Point(5.0 / 7.0, 500.0 / 7.0),
               Point(4.0 / 6.0, 401.0 / 6.0));
    BentStep();
    BentMarginFrom(r);
  }

  lemma RootBelowOne(root: real -> real, j: real)
    requires IsRoot(root) && 0.0 <= j <= 1.0
    ensures 0.0 <= root(j) <= 1.0
  {
    var s := root(j);
    assert s >= 0.0 && s * s == j;
    SmallRoot(s);
  }

  lemma BentMarginFrom(r: Request)
    requires IsBent(r) && r.Valid() && r.Jacobian() == Abs(1.0 / 126.0)
    ensures r.Margin() < 2.0
  {
    assert IsRoot(r.root);
    hide Request.Valid, Request.Jacobian, Request.LocalScale, Request.Margin, Request.DropRadius, Request.Sigma, IsRoot;
    ScaleIs(r, r.Jacobian());
    RootBelowOne(r.root, 1.0 / 126.0);
    MarginIs(r, r.LocalScale(), 0.1);
  }

  lemma SmallRoot(s: real)
    requires s >= 0.0 && s * s <= 1.0
    ensures s <= 1.0
  {
    assert (s - 1.0) * s == s * s - s;
    if s > 1.0 {
      Times(s - 1.0, s);
    }
  }

  lemma BentPoint(r: Request, x: int, xr: real, p: Point)
    requires IsBent(r) && 0 <= x < 9 && xr == x as real
    requires p.x * (xr + 2.0) == xr && p.y * (xr + 2.0) == 100.0 * xr + 0.0
    ensures r.Valid() && r.Inside(x, 0) && MappedRow(r, x, 0) == p.y && r.Centre(x, 0) == p
  {
    hide *;
    BentFrame(r);
    BentAt(xr, 0.0, p);
    CentreIs(r, x, 0, xr, 0.0);
    CentreRow(r, x, 0);
  }

  lemma CentreIs(r: Request, x: int, y: int, xr: real, yr: real)
    requires r.Valid() && r.Inside(x, y) && xr == x as real && yr == y as real
    ensures r.forward.W(xr, yr) != 0.0 && r.Centre(x, y) == r.forward.Map(xr, yr)
  {
    InFrame(r, xr, yr);
    hide Request.Valid, Homography.W, Homography.Map;
  }

  /** The line is off by eight thirds of a column in the middle, which is worth six and two thirds rows. */
  lemma BentOvershoot(r: Request)
    requires IsBent(r)
    ensures r.Valid() && r.Inside(4, 0) && IsRow(r, 0) && !Level(r, 0) && Overshoot(r, 4, 0) > 6.0
    ensures LowDecides(r, 4, 0)
  {
    hide *;
    BentFrame(r);
    BentPoint(r, 0, 0.0, Point(0.0, 0.0));
    BentPoint(r, 4, 4.0, Point(4.0 / 6.0, 400.0 / 6.0));
    BentPoint(r, 8, 8.0, Point(0.8, 80.0));
    BentRowFrom(r);
  }

  lemma BentRowFrom(r: Request)
    requires r.Valid() && r.width == 9 && r.Inside(0, 0) && r.Inside(4, 0) && r.Inside(8, 0) && IsRow(r, 0)
    requires MappedRow(r, 0, 0) == 0.0 && MappedRow(r, 4, 0) == 400.0 / 6.0 && MappedRow(r, 8, 0) == 80.0
    ensures !Level(r, 0) && Overshoot(r, 4, 0) > 6.0 && LowDecides(r, 4, 0)
  {
    hide Request.Valid, MappedRow;
    assert Slope(r, 0) == 10.0;
    assert Solved(r, 0, 400.0 / 6.0) == 40.0 / 6.0;
  }

  /** Within half a tenth of a pixel of its mapped centre, a drop of the row extends less than one output pixel. */
  lemma BentCorner(dx: real, dy: real, p: Point, c: Point)
    requires (dx == 0.05 || dx == -0.05) && (dy == 0.05 || dy == -0.05) && c == Point(4.0 / 6.0, 400.0 / 6.0)
    requires p.x * (4.0 + dx + 2.0) == 4.0 + dx && p.y * (4.0 + dx + 2.0) == 100.0 * (4.0 + dx) + dy
    ensures c.x - 1.0 <= p.x <= c.x + 1.0 && c.y - 1.0 <= p.y <= c.y + 1.0
    ensures dx == dy == 0.05 ==> p.y >= c.y
  {}

  /** The point of the map at a corner. */
  function BentImage(dx: real, dy: real): Point
    requires -1.0 < dx < 1.0
  {
    Point((4.0 + dx) / (6.0 + dx), (100.0 * (4.0 + dx) + dy) / (6.0 + dx))
  }

  lemma BentImageIs(dx: real, dy: real)
    requires -1.0 < dx < 1.0
    ensures BENT.W(4.0 + dx, dy) != 0.0 && BENT.Map(4.0 + dx, dy) == BentImage(dx, dy)
    ensures BentImage(dx, dy).x * (4.0 + dx + 2.0) == 4.0 + dx
    ensures BentImage(dx, dy).y * (4.0 + dx + 2.0) == 100.0 * (4.0 + dx) + dy
  {
    var w := 6.0 + dx;
    TimesQuotient(4.0 + dx, w, BentImage(dx, dy).x);
    TimesQuotient(100.0 * (4.0 + dx) + dy, w, BentImage(dx, dy).y);
    hide BentImage;
    BentAt(4.0 + dx, dy, BentImage(dx, dy));
  }

  lemma BentDrop(r: Request)
    requires IsBent(r)
    ensures r.Valid() && r.Inside(4, 0)
    ensures r.Drop(4, 0) == [BentImage(-0.05, -0.05), BentImage(0.05, -0.05), BentImage(0.05, 0.05),
                             BentImage(-0.05, 0.05)]
  {
    hide BentImage, Homography.W, Homography.Map, Request.Valid;
    BentFrame(r);
    BentImageIs(-0.05, -0.05);
    BentImageIs(0.05, -0.05);
    BentImageIs(0.05, 0.05);
    BentImageIs(-0.05, 0.05);
    assert r.Half() == 0.05;
    DropOneSided(r, 4, 0);
    assert 4 as real + 0.05 == 4.0 + 0.05 && 4 as real - 0.05 == 4.0 + -0.05;
    assert 0 as real + 0.05 == 0.05 && 0 as real - 0.05 == -0.05;
  }

  predicate Near(p: Point, c: Point) { c.x - 1.0 <= p.x <= c.x + 1.0 && c.y - 1.0 <= p.y <= c.y + 1.0 }

  lemma BentNear(dx: real, dy: real, c: Point)
    requires (dx == 0.05 || dx == -0.05) && (dy == 0.05 || dy == -0.05) && c == Point(4.0 / 6.0, 400.0 / 6.0)
    ensures Near(BentImage(dx, dy), c) && (dx == dy == 0.05 ==> BentImage(dx, dy).y >= c.y)
  {
    BentImageIs(dx, dy);
    hide BentImage;
    BentCorner(dx, dy, BentImage(dx, dy), c);
  }

  lemma NearBeyond(q: seq<Point>, c: Point, vertical: bool, higher: bool)
    requires |q| == 4 && Near(q[0], c) && Near(q[1], c) && Near(q[2], c) && Near(q[3], c)
    ensures Beyond(vertical, higher, q, c) <= 1.0
    ensures q[2].y >= c.y ==> Beyond(false, true, q, c) >= 0.0
  {}

  lemma BentOverhang(r: Request, vertical: bool, higher: bool)
    requires IsBent(r)
    ensures r.Valid() && r.Inside(4, 0)
    ensures Overhang(r, 4, 0, vertical, higher) <= 1.0 && Overhang(r, 4, 0, false, true) >= 0.0
  {
    var c := Point(4.0 / 6.0, 400.0 / 6.0);
    hide *;
    BentPoint(r, 4, 4.0, c);
    BentDrop(r);
    OverhangIs(r, 4, 0, vertical, higher);
    OverhangIs(r, 4, 0, false, true);
    BentNear(-0.05, -0.05, c);
    BentNear(0.05, -0.05, c);
    BentNear(0.05, 0.05, c);
    BentNear(-0.05, 0.05, c);
    NearBeyond(r.Drop(4, 0), c, vertical, higher);
  }

  /**
   A strongly projective row of nine pixels: in every chunk there is a shift of the output at which the run leaves out
   the middle pixel, though its centre passes the test and its drop leaves some area on the chunk.
   */
  lemma BentRow(r: Request, first: int, past: int) returns (d: Point)
    requires IsBent(r) && first < past
    ensures Loses(Moved(r, d), 4, 0, first, past)
    ensures CentreInside(Moved(r, d), Moved(r, d).Centre(4, 0), first, past)
    ensures !RunOf(Moved(r, d), 0, first, past).Has(4)
  {
    assert r.kernel == Square;
    hide *;
    BentMargin(r);
    BentOvershoot(r);
    BentOverhang(r, true, true);
    BentOverhang(r, true, false);
    BentOverhang(r, false, true);
    BentOverhang(r, false, false);
    BentUnfit(r);
    d := RunLoses(r, 4, 0, first, past);
  }

  lemma BentUnfit(r: Request)
    requires r.Valid() && r.Inside(4, 0) && IsRow(r, 0) && 1.0 < r.Margin() < 2.0
    requires !Level(r, 0) && Overshoot(r, 4, 0) > 6.0 && LowDecides(r, 4, 0)
    requires Overhang(r, 4, 0, true, true) <= 1.0 && Overhang(r, 4, 0, true, false) <= 1.0
    requires 0.0 <= Overhang(r, 4, 0, false, true) <= 1.0 && Overhang(r, 4, 0, false, false) <= 1.0
    ensures DropFits(r, 4, 0) && !RunFits(r, 4, 0)
  {
    hide Request.Valid, Overhang, Overshoot, LowDecides, Level, Request.Margin;
  }
}
