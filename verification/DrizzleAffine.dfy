/**
 Skipping source pixels under an affine map (native/src/DrizzleKernel.cpp): all drops reach equally far, rows are
 straight and no horizon is in the way, so the margin alone decides.
 */
module DrizzleAffine {
  import opened PolygonClip
  import opened ConvexClip
  import opened HomographyMaps
  import opened DrizzleSource
  import opened DrizzleReach
  import opened Reals

  /** How far a drop extends from its mapped centre. */
  function Reach(r: Request, vertical: bool): real
    requires r.Valid()
  {
    match r.kernel
    case PointDrop => 0.0
    case Square =>
      if vertical then r.Half() * Abs(r.forward.m0) + r.Half() * Abs(r.forward.m1)
      else r.Half() * Abs(r.forward.m3) + r.Half() * Abs(r.forward.m4)
    case Circular => r.DropRadius()
    case Gaussian => 3.0 * r.Sigma()
  }

  /** How much the mapped row rises along a source row, if that is little enough for a level row. */
  function Rise(r: Request): real
    requires r.Valid()
  {
    var rise := Abs(r.forward.m3) * (r.width as real - 1.0);
    if rise <= LEVEL then rise else 0.0
  }

  /** The margin covers the drop in both directions. */
  predicate Covered(r: Request)
    requires r.Valid()
  {
    Reach(r, true) <= r.Margin() && Reach(r, false) <= r.Margin()
  }

  /** It also makes up for the one test of a level row. */
  predicate Fits(r: Request)
    requires r.Valid()
  {
    Reach(r, true) <= r.Margin() && Reach(r, false) + Rise(r) <= r.Margin()
  }

  /** A uniform scale with a rotation or a reflection. */
  predicate Similarity(h: Homography) {
    h.IsAffine() && ((h.m1 == -h.m3 && h.m4 == h.m0) || (h.m1 == h.m3 && h.m4 == -h.m0))
  }

  lemma WidthPositive(r: Request)
    requires r.Valid()
    ensures r.width > 0
  {}

  lemma RiseBounds(r: Request)
    requires r.Valid()
    ensures 0.0 <= Rise(r) <= LEVEL
  {
    WidthPositive(r);
    hide Request.Valid;
    Times(Abs(r.forward.m3), r.width as real - 1.0);
  }

  lemma FitsCovers(r: Request)
    requires r.Valid() && Fits(r)
    ensures Covered(r)
  {
    hide Request.Valid, Rise, Reach, Request.Margin;
    RiseBounds(r);
  }

  /** Only a square drop can be wider than the margin. */
  lemma OthersFit(r: Request)
    requires r.Valid() && r.kernel != Square
    ensures Fits(r)
  {
    ScalePositive(r);
    SigmaPositive(r);
    RiseBounds(r);
    hide Request.Valid, Request.LocalScale, Rise;
  }

  // ----- the extent of a square drop -----

  lemma Stretch(m: real, half: real)
    requires half >= 0.0
    ensures -(half * Abs(m)) <= m * half <= half * Abs(m)
    ensures -(half * Abs(m)) <= m * -half <= half * Abs(m)
  {
    InkSign(half, Abs(m));
    assert m >= 0.0 ==> m * half == half * Abs(m);
    assert m < 0.0 ==> m * half == -(half * Abs(m));
    assert m * -half == -(m * half);
  }

  lemma RowShift(p: real, q: real, c: real, x: real, y: real, dx: real, dy: real)
    ensures p * (x + dx) + q * (y + dy) + c == (p * x + q * y + c) + p * dx + q * dy
  {}

  /** One coordinate of the image of a corner at (dx, dy) from a point. */
  lemma CornerAxis(p: real, q: real, c: real, x: real, y: real, dx: real, dy: real, half: real, e: real)
    requires e == half * Abs(p) + half * Abs(q) && half >= 0.0 && (dx == half || dx == -half)
      && (dy == half || dy == -half)
    ensures p * x + q * y + c - e <= p * (x + dx) + q * (y + dy) + c <= p * x + q * y + c + e
  {
    RowShift(p, q, c, x, y, dx, dy);
    Stretch(p, half);
    Stretch(q, half);
    hide Abs;
  }

  /** The image of a corner at (dx, dy) from a point. */
  lemma CornerShift(h: Homography, x: real, y: real, dx: real, dy: real, half: real, e: real, f: real)
    requires e == half * Abs(h.m0) + half * Abs(h.m1) && f == half * Abs(h.m3) + half * Abs(h.m4)
    requires h.IsAffine() && half >= 0.0 && (dx == half || dx == -half) && (dy == half || dy == -half)
    ensures h.W(x, y) == 1.0 && h.W(x + dx, y + dy) == 1.0
    ensures h.Map(x, y).x - e <= h.Map(x + dx, y + dy).x <= h.Map(x, y).x + e
    ensures h.Map(x, y).y - f <= h.Map(x + dx, y + dy).y <= h.Map(x, y).y + f
  {
    hide Abs;
    AffinePoint(h, x, y);
    AffinePoint(h, x + dx, y + dy);
    CornerAxis(h.m0, h.m1, h.m2, x, y, dx, dy, half, e);
    CornerAxis(h.m3, h.m4, h.m5, x, y, dx, dy, half, f);
    hide Homography.Map, Homography.W, Homography.IsAffine;
  }

  lemma AffinePoint(h: Homography, x: real, y: real)
    requires h.IsAffine()
    ensures h.W(x, y) == 1.0 && h.Map(x, y) == Point(h.m0 * x + h.m1 * y + h.m2, h.m3 * x + h.m4 * y + h.m5)
  {
    AffineDenominator(h, x, y);
    hide Homography.W;
    OverOne(h.X(x, y), h.W(x, y));
    OverOne(h.Y(x, y), h.W(x, y));
  }

  lemma SquareExtent(r: Request, x: int, y: int)
    requires r.Valid() && r.Inside(x, y) && r.kernel == Square && r.forward.IsAffine()
    ensures var c, q := r.Centre(x, y), r.Drop(x, y);
        |q| == 4 && forall i :: 0 <= i < 4 ==>
          c.x - Reach(r, true) <= q[i].x <= c.x + Reach(r, true)
              && c.y - Reach(r, false) <= q[i].y <= c.y + Reach(r, false)
  {
    hide Request.Valid, Homography.Map, Homography.W, Homography.Det, Abs, Request.Half, Homography.IsAffine;
    DropOneSided(r, x, y);
    var h, half, e, f := r.forward, r.Half(), Reach(r, true), Reach(r, false);
    assert e == half * Abs(h.m0) + half * Abs(h.m1) && f == half * Abs(h.m3) + half * Abs(h.m4);
    hide Reach;
    CornerShift(h, x as real, y as real, -half, -half, half, e, f);
    CornerShift(h, x as real, y as real, half, -half, half, e, f);
    CornerShift(h, x as real, y as real, half, half, half, e, f);
    CornerShift(h, x as real, y as real, -half, half, half, e, f);
  }

  lemma FarthestBound(vertical: bool, q: seq<Point>, c: Point, e: real)
    requires |q| == 4
    requires forall i :: 0 <= i < 4 ==>
      Coordinate(vertical, c) - e <= Coordinate(vertical, q[i]) <= Coordinate(vertical, c) + e
    ensures Farthest(vertical, q, c) <= e
  {}

  /** No drop of an affine map reaches farther than any other. */
  lemma ReachIs(r: Request, x: int, y: int)
    requires r.Valid() && r.Inside(x, y) && r.forward.IsAffine()
    ensures ReachAt(r, x, y, true) <= Reach(r, true) && ReachAt(r, x, y, false) <= Reach(r, false)
  {
    if r.kernel == Square {
      SquareExtent(r, x, y);
      hide Request.Valid, Request.Centre, Request.Drop, Reach, Farthest;
      FarthestBound(true, r.Drop(x, y), r.Centre(x, y), Reach(r, true));
      FarthestBound(false, r.Drop(x, y), r.Centre(x, y), Reach(r, false));
    }
  }

  /** The centre test skips only pixels that leave nothing, when the margin covers the drop. */
  lemma CentreTestIsSafe(r: Request, x: int, y: int, first: int, past: int)
    requires r.Valid() && Covered(r) && r.forward.IsAffine()
    requires r.Inside(x, y) && !CentreInside(r, r.Centre(x, y), first, past)
    ensures Unreached(r, x, y, first, past)
  {
    ReachIs(r, x, y);
    hide Request.Valid, Request.Centre, Reach, ReachAt, Request.Margin, TopEdge, BottomEdge, LeftEdge, RightEdge;
    hide Unreached;
    CentreCull(r, x, y, first, past, 0.0);
  }

  // ----- rows -----

  /** The mapped row is linear along a source row. */
  lemma RowIsLinear(r: Request, x: int, y: int)
    requires r.Valid() && r.Inside(x, y) && r.Inside(0, y) && r.forward.IsAffine()
    ensures MappedRow(r, x, y) == MappedRow(r, 0, y) + r.forward.m3 * x as real
  {
    AffineDenominator(r.forward, x as real, y as real);
    AffineDenominator(r.forward, 0.0, y as real);
    SameProduct(0 as real, 0.0, r.forward.m3);
  }

  lemma EndRise(r: Request, y: int)
    requires r.Valid() && IsRow(r, y) && r.forward.IsAffine()
    ensures Abs(MappedRow(r, r.width - 1, y) - MappedRow(r, 0, y)) == Abs(r.forward.m3) * (r.width as real - 1.0)
  {
    hide Request.Valid, MappedRow, Homography.IsAffine;
    RowIsLinear(r, r.width - 1, y);
    AbsProduct(r.forward.m3, (r.width - 1) as real);
  }

  /** All rows of a request are level, or none is. */
  lemma LevelIs(r: Request, y: int)
    requires r.Valid() && IsRow(r, y) && r.forward.IsAffine()
    ensures Level(r, y) <==> Abs(r.forward.m3) * (r.width as real - 1.0) <= LEVEL
    ensures RowRise(r, y) == Rise(r)
  {
    EndRise(r, y);
    hide Request.Valid, MappedRow, Abs, Homography.IsAffine;
  }

  lemma AffineStraight(r: Request, y: int)
    requires r.forward.IsAffine()
    ensures Straight(r, y)
  {
    forall x | 0 <= x < r.width
      ensures Bend(r, x) < 2.0 * Abs(r.forward.W(x as real, y as real))
    {
      AffineDenominator(r.forward, x as real, y as real);
      SameProduct(Abs(r.forward.m6), 0.0, FromEnds(x as real, (r.width - 1) as real));
    }
  }

  lemma AffineClear(r: Request, first: int, past: int)
    requires r.Valid() && r.forward.IsAffine()
    ensures Clear(r, first, past)
  {
    AffineInverse(r.forward);
    AffineSided(Back(r), LeftEdge(r), RightEdge(r), TopEdge(r, first), BottomEdge(r, past));
  }

  /** An affine map whose drop fits the margin loses nothing. */
  lemma FittingIsGentle(r: Request)
    requires r.Valid() && r.forward.IsAffine() && Fits(r)
    ensures Gentle(r)
  {
    AffineClear(r, r.outputRow0, r.outputRow0 + r.outputRows);
    hide Request.Valid, Clear, Reach, ReachAt, Rise, RowRise, Request.Margin, Straight, Homography.IsAffine, SlackAt;
    RiseBounds(r);
    forall x, y | r.Inside(x, y) && IsRow(r, y)
      ensures RoomAt(r, x, y) && SlackAt(r, x, y)
    {
      AffineStraight(r, y);
      ReachIs(r, x, y);
      LevelIs(r, y);
      StraightHasSlack(r, x, y);
    }
  }
}
