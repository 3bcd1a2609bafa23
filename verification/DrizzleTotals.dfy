/**
 What one drop leaves altogether, and which maps the skipping margin of native/src/DrizzleKernel.cpp is wide
 enough for.
 */
module DrizzleTotals {
  import opened PooledWindow
  import opened PolygonClip
  import opened DrizzleDrop
  import opened HomographyMaps
  import opened DrizzleSource
  import opened DrizzleReach
  import opened DrizzleAffine
  import opened Reals

  // ----- the margin -----

  /** The one-pixel steps of an affine map give its determinant. */
  lemma JacobianIsDet(r: Request)
    requires r.Valid() && r.forward.IsAffine()
    ensures r.Jacobian() == Abs(r.forward.Det())
  {
    hide *;
    var x, y := 0.5 * (r.width as real - 1.0), r.row0 as real + 0.5 * (|r.source| as real - 1.0);
    Regular(r);
    AffineInverse(r.forward);
    AffinePoint(r.forward, x, y);
    AffinePoint(r.forward, x + 1.0, y);
    AffinePoint(r.forward, x, y + 1.0);
    Step(r.forward.m0, r.forward.m1, r.forward.m2, x, y);
    Step(r.forward.m3, r.forward.m4, r.forward.m5, x, y);
    var c, cx, cy := r.forward.Map(x, y), r.forward.Map(x + 1.0, y), r.forward.Map(x, y + 1.0);
    Differences(c, cx, cy, r.forward.m0, r.forward.m1, r.forward.m3, r.forward.m4);
    JacobianIs(r, x, y, r.forward.Det());
    assert r.forward.m0 * r.forward.m4 - r.forward.m1 * r.forward.m3 == r.forward.Det();
  }

  lemma Regular(r: Request)
    requires r.Valid()
    ensures r.forward.Det() != 0.0
  {}

  lemma JacobianIs(r: Request, x: real, y: real, d: real)
    requires r.Valid() && x == 0.5 * (r.width as real - 1.0) && y == r.row0 as real + 0.5 * (|r.source| as real - 1.0)
    requires r.forward.W(x, y) == 1.0 && r.forward.W(x + 1.0, y) == 1.0 && r.forward.W(x, y + 1.0) == 1.0
    requires var c, cx, cy := r.forward.Map(x, y), r.forward.Map(x + 1.0, y), r.forward.Map(x, y + 1.0);
        StepArea(c, cx, cy) == d
    ensures r.Jacobian() == Abs(d)
  {
    hide Request.Valid, Homography.Map, Homography.W, Abs, StepArea;
  }

  lemma Step(p: real, q: real, c: real, x: real, y: real)
    ensures p * (x + 1.0) + q * y + c - (p * x + q * y + c) == p
    ensures p * x + q * (y + 1.0) + c - (p * x + q * y + c) == q
  {}

  lemma Differences(c: Point, cx: Point, cy: Point, a: real, b: real, d: real, e: real)
    requires cx.x - c.x == a && cy.x - c.x == b && cx.y - c.y == d && cy.y - c.y == e
    ensures StepArea(c, cx, cy) == a * e - b * d
  {}

  lemma StrictSquares(t: real, u: real)
    requires t > u >= 0.0
    ensures t * t > u * u
  {
    SquareGap(u, t - u, t);
  }

  lemma SquareGap(u: real, k: real, t: real)
    requires t == u + k && u >= 0.0 && k > 0.0
    ensures t * t > u * u
  {
    SquareOfSum(u, k, t);
    assert k * k > 0.0;
    assert u * k >= 0.0;
  }

  lemma SquareOfSum(a: real, b: real, t: real)
    requires t == a + b
    ensures t * t == a * a + 2.0 * (a * b) + b * b
  {
    assert t * t == t * (a + b) == t * a + t * b;
    assert t * a == (a + b) * a && t * b == (a + b) * b;
  }

  lemma RootOrder(t: real, u: real)
    requires t >= 0.0 && u >= 0.0 && t * t <= u * u
    ensures t <= u
  {
    if t > u {
      StrictSquares(t, u);
    }
  }

  lemma SumOfSides(a: real, b: real, s: real)
    requires s >= 0.0 && a >= 0.0 && b >= 0.0 && s * s >= a * a + b * b
    ensures a + b <= 1.5 * s
  {
    SquareOfSum(a, b, a + b);
    SquareOfSum(a, -b, a - b);
    SquareOfSum(s, 0.5 * s, 1.5 * s);
    NonNegative(a - b);
    NonNegative(s);
    assert a * -b == -(a * b) && -b * -b == b * b && s * (0.5 * s) == 0.5 * (s * s)
      && 0.5 * s * (0.5 * s) == 0.25 * (s * s);
    RootOrder(a + b, 1.5 * s);
  }

  lemma NonNegative(a: real)
    ensures a * a >= 0.0
  {}

  lemma AbsSquare(a: real)
    ensures Abs(a) >= 0.0 && Abs(a) * Abs(a) == a * a
  {}

  lemma ScaleSquared(r: Request)
    requires r.Valid()
    ensures r.LocalScale() >= 0.0 && r.LocalScale() * r.LocalScale() >= r.Jacobian()
  {
    hide Request.Jacobian;
    var j := if r.Jacobian() < 0.000000000001 then 0.000000000001 else r.Jacobian();
    assert IsRoot(r.root) && r.LocalScale() == r.root(j);
    assert r.root(j) * r.root(j) == j;
  }

  lemma SimilarityArea(h: Homography)
    requires Similarity(h)
    ensures h.IsAffine()
    ensures Abs(h.Det()) == h.m0 * h.m0 + h.m3 * h.m3
    ensures Abs(h.m1) == Abs(h.m3) && Abs(h.m4) == Abs(h.m0)
  {
    assert h.Det() == h.m0 * h.m4 - h.m1 * h.m3;
    hide Homography.Det;
    assert h.m0 * h.m0 >= 0.0 && h.m3 * h.m3 >= 0.0;
    if h.m1 == -h.m3 && h.m4 == h.m0 {
      assert h.m0 * h.m4 - h.m1 * h.m3 == h.m0 * h.m0 + h.m3 * h.m3;
    } else {
      assert h.m0 * h.m4 - h.m1 * h.m3 == -(h.m0 * h.m0 + h.m3 * h.m3);
    }
  }

  lemma HalfReach(pixfrac: real, scale: real, a: real, b: real)
    requires pixfrac >= 0.0 && a + b <= 1.5 * scale
    ensures 0.5 * pixfrac * a + 0.5 * pixfrac * b <= pixfrac * scale * 0.5 * 1.5
  {
    Order(0.5 * pixfrac, a + b, 1.5 * scale);
  }

  /** For every rotation, reflection, uniform scale and shift the margin covers every kernel's drop. */
  lemma SimilarityFits(r: Request)
    requires r.Valid() && Similarity(r.forward)
    ensures Fits(r)
  {
    hide *;
    var s := r.LocalScale();
    SimilarityArea(r.forward);
    JacobianIsDet(r);
    ScaleSquared(r);
    assert s * s >= r.forward.m0 * r.forward.m0 + r.forward.m3 * r.forward.m3;
    AbsSquare(r.forward.m0);
    AbsSquare(r.forward.m3);
    SumOfSides(Abs(r.forward.m0), Abs(r.forward.m3), s);
    PixfracBounds(r);
    HalfReach(r.pixfrac, s, Abs(r.forward.m0), Abs(r.forward.m3));
    SquareReach(r);
    RoomFits(r);
  }

  lemma PixfracBounds(r: Request)
    requires r.Valid()
    ensures 0.0 < r.pixfrac <= 1.0
  {}

  lemma SquareMargin(r: Request)
    requires r.Valid() && r.kernel == Square
    ensures r.Margin() == r.pixfrac * r.LocalScale() * 0.5 * 1.5 + 1.0
  {
    hide Request.Valid, Request.LocalScale;
  }

  /** A reach of three quarters of the mapped drop's width leaves room for the tolerance of a level row. */
  lemma RoomFits(r: Request)
    requires r.Valid()
    requires r.kernel == Square ==> Reach(r, true) <= r.pixfrac * r.LocalScale() * 0.5 * 1.5
    requires r.kernel == Square ==> Reach(r, false) <= r.pixfrac * r.LocalScale() * 0.5 * 1.5
    ensures Fits(r)
  {
    hide Request.Valid, Request.LocalScale, Request.Margin, Reach, Rise;
    if r.kernel == Square {
      RiseBounds(r);
      SquareMargin(r);
    } else {
      OthersFit(r);
    }
  }

  lemma SquareReach(r: Request)
    requires r.Valid()
    ensures r.kernel == Square ==>
      Reach(r, true) == 0.5 * r.pixfrac * Abs(r.forward.m0) + 0.5 * r.pixfrac * Abs(r.forward.m1)
    ensures r.kernel == Square ==>
      Reach(r, false) == 0.5 * r.pixfrac * Abs(r.forward.m3) + 0.5 * r.pixfrac * Abs(r.forward.m4)
  {
    hide Request.Valid, Abs;
  }

  // ----- a stretching map -----

  lemma ClipFour(h: HalfPlane, a: Point, b: Point, c: Point, d: Point)
    ensures Clip(h, [a, b, c, d])
      == ClipVertex(h, d, a) + (ClipVertex(h, a, b) + (ClipVertex(h, b, c) + ClipVertex(h, c, d)))
  {
    hide ClipVertex;
    var p := [a, b, c, d];
    assert p[1..] == [b, c, d] && p[1..][1..] == [c, d] && [c, d][1..] == [d] && [d][1..] == [];
    assert ClipChain(h, d, []) == [];
    assert ClipChain(h, c, [d]) == ClipVertex(h, c, d);
    assert ClipChain(h, b, [c, d]) == ClipVertex(h, b, c) + ClipVertex(h, c, d);
    assert ClipChain(h, a, [b, c, d]) == ClipVertex(h, a, b) + (ClipVertex(h, b, c) + ClipVertex(h, c, d));
  }

  lemma TallOverlap()
    ensures Overlap([Point(-0.5, -50.0), Point(0.5, -50.0), Point(0.5, 50.0), Point(-0.5, 50.0)], 0, 20) == 1.0
  {
    var a, b, c, d := Point(-0.5, -50.0), Point(0.5, -50.0), Point(0.5, 50.0), Point(-0.5, 50.0);
    ClipFour(Low(true, 0), a, b, c, d);
    assert Clip(Low(true, 0), [a, b, c, d]) == [a, b, c, d];
    ClipFour(High(true, 0), a, b, c, d);
    assert Clip(High(true, 0), [a, b, c, d]) == [a, b, c, d];
    ClipFour(Low(false, 20), a, b, c, d);
    var p, q := Point(-0.5, 19.5), Point(0.5, 19.5);
    assert Clip(Low(false, 20), [a, b, c, d]) == [p, q, c, d];
    ClipFour(High(false, 20), p, q, c, d);
    var m, n := Point(-0.5, 20.5), Point(0.5, 20.5);
    assert Clip(High(false, 20), [p, q, c, d]) == [m, p, q, n];
    FourEdges([m, p, q, n], m, p, q, n);
  }

  /** Not so for a stretch: a drop of 1 x 100 pixels is skipped for a chunk it covers. */
  lemma StretchedDropIsLost(r: Request)
    requires r.Valid() && r.kernel == Square && r.pixfrac == 1.0 && r.Inside(0, 0) && r.SampleOf(0, 0).Some?
    requires r.forward == Homography(1.0, 0.0, 0.0, 0.0, 100.0, 0.0, 0.0, 0.0, 1.0)
    ensures !CentreInside(r, r.Centre(0, 0), 16, 32) && !Visited(r, 0, 0, 16, 32)
    ensures r.DropInk(0, 0, 0, 20).weight == r.SampleOf(0, 0).value.weight
  {
    hide *;
    TallScale(r);
    TallDrop(r);
    TallOverlap();
    TallInk(r);
    OutsideIsSkipped(r, 0, 0, 16, 32);
  }

  lemma OutsideIsSkipped(r: Request, x: int, y: int, first: int, past: int)
    requires r.Valid() && r.Inside(x, y) && !CentreInside(r, r.Centre(x, y), first, past)
    ensures !Visited(r, x, y, first, past)
  {}

  lemma TallScale(r: Request)
    requires r.Valid() && r.forward == Homography(1.0, 0.0, 0.0, 0.0, 100.0, 0.0, 0.0, 0.0, 1.0)
    ensures r.LocalScale() == 10.0
  {
    JacobianIsDet(r);
    var s := r.LocalScale();
    assert s >= 0.0 && s * s == 100.0 by {
      ScaleIsRoot(r);
    }
    hide *;
    RootOrder(s, 10.0);
    RootOrder(10.0, s);
  }

  lemma ScaleIsRoot(r: Request)
    requires r.Valid() && r.Jacobian() >= 1.0
    ensures r.LocalScale() >= 0.0 && r.LocalScale() * r.LocalScale() == r.Jacobian()
  {
    hide Request.Jacobian;
  }

  lemma TallDrop(r: Request)
    requires r.Valid() && r.forward == Homography(1.0, 0.0, 0.0, 0.0, 100.0, 0.0, 0.0, 0.0, 1.0) && r.pixfrac == 1.0
    requires r.Inside(0, 0)
    ensures r.Centre(0, 0) == Point(0.0, 0.0)
    ensures r.Drop(0, 0) == [Point(-0.5, -50.0), Point(0.5, -50.0), Point(0.5, 50.0), Point(-0.5, 50.0)]
  {
    hide Request.Valid, Homography.Map, Homography.W, Homography.Det;
    TallPoint(r.forward, 0.0, 0.0);
    TallPoint(r.forward, -0.5, -0.5);
    TallPoint(r.forward, 0.5, -0.5);
    TallPoint(r.forward, 0.5, 0.5);
    TallPoint(r.forward, -0.5, 0.5);
  }

  lemma TallPoint(h: Homography, x: real, y: real)
    requires h == Homography(1.0, 0.0, 0.0, 0.0, 100.0, 0.0, 0.0, 0.0, 1.0)
    ensures h.W(x, y) == 1.0 && h.Map(x, y) == Point(x, 100.0 * y)
  {
    AffinePoint(h, x, y);
  }

  lemma TallInk(r: Request)
    requires r.Valid() && r.kernel == Square && r.pixfrac == 1.0 && r.Inside(0, 0) && r.SampleOf(0, 0).Some?
    requires r.LocalScale() == 10.0 && r.Centre(0, 0) == Point(0.0, 0.0) && Overlap(r.Drop(0, 0), 0, 20) == 1.0
    ensures !CentreInside(r, r.Centre(0, 0), 16, 32) && r.DropInk(0, 0, 0, 20).weight == r.SampleOf(0, 0).value.weight
  {
    hide Request.Valid, Request.LocalScale, Request.SampleOf, Request.Centre, Request.Drop, Overlap;
    assert r.AreaOn(0, 0, 0, 20) == 1.0;
    assert r.SampleOf(0, 0).value.weight * 1.0 == r.SampleOf(0, 0).value.weight;
  }

  // ----- the whole drop -----

  function AreaRow(r: Request, x: int, y: int, u: int, m: nat, ov: int): real
    requires r.Valid() && r.Inside(x, y)
  {
    if m == 0 then 0.0 else AreaRow(r, x, y, u, m - 1, ov) + r.AreaOn(x, y, u + m - 1, ov)
  }

  /** The areas of a drop on m columns from u and n rows from v. */
  function AreaBox(r: Request, x: int, y: int, u: int, m: nat, v: int, n: nat): real
    requires r.Valid() && r.Inside(x, y)
  {
    if n == 0 then 0.0 else AreaBox(r, x, y, u, m, v, n - 1) + AreaRow(r, x, y, u, m, v + n - 1)
  }

  lemma {:induction false} SquareRow(r: Request, x: int, y: int, u: int, m: nat, ov: int)
    requires r.Valid() && r.Inside(x, y) && r.kernel == Square
    ensures AreaRow(r, x, y, u, m, ov) == RowOverlaps(r.Drop(x, y), u, m, ov)
  {
    hide Overlap, Request.Drop, Request.Valid, Request.Centre;
    if m > 0 {
      SquareRow(r, x, y, u, m - 1, ov);
    }
  }

  lemma {:induction false} SquareBox(r: Request, x: int, y: int, u: int, m: nat, v: int, n: nat)
    requires r.Valid() && r.Inside(x, y) && r.kernel == Square
    ensures AreaBox(r, x, y, u, m, v, n) == GridOverlaps(r.Drop(x, y), u, m, v, n)
  {
    hide AreaRow, RowOverlaps, Request.Drop, Request.Valid;
    if n > 0 {
      SquareBox(r, x, y, u, m, v, n - 1);
      SquareRow(r, x, y, u, m, v + n - 1);
    }
  }

  /**
   Every square drop leaves its area on the pixels its loops visit; under an affine map that is pixfrac squared times
   the Jacobian.
   */
  lemma SquareConserved(r: Request, x: int, y: int)
    requires r.Valid() && r.Inside(x, y) && r.kernel == Square
    ensures var q := r.Drop(x, y);
        |q| == 4
        && FirstPixel(true, q) <= LastPixel(true, q) && FirstPixel(false, q) <= LastPixel(false, q)
        && AreaBox(r, x, y, FirstPixel(true, q), LastPixel(true, q) - FirstPixel(true, q) + 1,
                   FirstPixel(false, q), LastPixel(false, q) - FirstPixel(false, q) + 1) == Area(q)
        && (r.forward.IsAffine() ==> Area(q) == r.pixfrac * r.pixfrac * r.Jacobian())
  {
    hide *;
    var q := r.Drop(x, y);
    if r.forward.IsAffine() {
      DropArea(r, x, y);
    }
    DropBox(r, x, y);
    BoxBounds(true, q);
    BoxBounds(false, q);
    SquareBox(r, x, y, FirstPixel(true, q), LastPixel(true, q) - FirstPixel(true, q) + 1,
              FirstPixel(false, q), LastPixel(false, q) - FirstPixel(false, q) + 1);
  }

  lemma DropArea(r: Request, x: int, y: int)
    requires r.Valid() && r.Inside(x, y) && r.forward.IsAffine()
    ensures |r.Drop(x, y)| == 4 && Area(r.Drop(x, y)) == r.pixfrac * r.pixfrac * r.Jacobian()
  {
    hide Request.Valid, Area, Request.Jacobian, Homography.Det, Abs, Homography.Map;
    var h, half := r.forward, r.Half();
    Regular(r);
    PixfracBounds(r);
    JacobianIsDet(r);
    AffineDropArea(h, x as real, y as real, half);
    FourHalves(r.pixfrac, half, Abs(h.Det()));
  }

  lemma FourHalves(p: real, half: real, d: real)
    requires half == 0.5 * p
    ensures 4.0 * half * half * d == p * p * d
  {}

  lemma DropBox(r: Request, x: int, y: int)
    requires r.Valid() && r.Inside(x, y)
    ensures var q := r.Drop(x, y); var u, v := FirstPixel(true, q), FirstPixel(false, q);
        |q| == 4 && u <= LastPixel(true, q) && v <= LastPixel(false, q)
        && GridOverlaps(q, u, LastPixel(true, q) - u + 1, v, LastPixel(false, q) - v + 1) == Area(q)
  {
    hide Request.Valid, Area, Homography.Det, Homography.Map, GridOverlaps, FirstPixel, LastPixel;
    Regular(r);
    DropOneSided(r, x, y);
    BoxBounds(true, r.Drop(x, y));
    BoxBounds(false, r.Drop(x, y));
    MappedDropConserved(r.forward, x as real, y as real, r.Half());
  }

  // ----- the Gaussian drop -----

  /** The columns and rows the Gaussian loops visit: [u0, u1) inside the image and [v0, v1). */
  predicate BellLoops(r: Request, c: Point, u0: int, u1: int, v0: int, v1: int)
    requires r.Valid()
  {
    var reach := 3.0 * r.Sigma();
    var ou0, ou1 := (c.x - reach + 0.5).Floor, (c.x + reach + 0.5).Floor;
    && u0 == (if ou0 < 0 then 0 else ou0) && u1 == (if r.outputWidth - 1 < ou1 then r.outputWidth - 1 else ou1) + 1
    && v0 == (c.y - reach + 0.5).Floor && v1 == (c.y + reach + 0.5).Floor + 1
  }

  lemma Shares(k: real, a: real, b: real, t: real, p: real, q: real)
    requires t != 0.0 && p == k * a / t && q == k * b / t
    ensures p + q == k * (a + b) / t
  {
    assert k * (a + b) == k * a + k * b;
  }

  /** A share of pixfrac squared times the Jacobian. */
  function Share(r: Request, part: real, total: real): real
    requires r.Valid() && total != 0.0
  {
    r.pixfrac * r.pixfrac * r.Jacobian() * part / total
  }

  lemma SharesAdd(r: Request, a: real, b: real, total: real)
    requires r.Valid() && total != 0.0
    ensures Share(r, a, total) + Share(r, b, total) == Share(r, a + b, total)
    ensures Share(r, 0.0, total) == 0.0
  {
    hide Request.Valid, Request.Jacobian;
    Shares(r.pixfrac * r.pixfrac * r.Jacobian(), a, b, total, Share(r, a, total), Share(r, b, total));
  }

  lemma PixelShare(r: Request, x: int, y: int, c: Point, u0: int, u1: int, v0: int, v1: int, ou: int, ov: int)
    requires r.Valid() && r.Inside(x, y) && r.kernel == Gaussian && c == r.Centre(x, y)
    requires BellLoops(r, c, u0, u1, v0, v1) && u0 <= ou < u1 && v0 <= ov < v1 && r.BellTotal(c) > 0.0
    ensures r.AreaOn(x, y, ou, ov) == Share(r, r.Bell(c, ou, ov), r.BellTotal(c))
  {
    hide Request.Valid, Request.Centre, Request.Jacobian, Request.Bell, Request.BellTotal, Request.Sigma;
  }

  lemma BellRowStep(r: Request, c: Point, u0: int, u1: int, ov: int)
    requires r.Valid()
    ensures u0 < u1 ==> r.BellRow(c, u0, u1, ov) == r.BellRow(c, u0, u1 - 1, ov) + r.Bell(c, u1 - 1, ov)
    ensures u0 >= u1 ==> r.BellRow(c, u0, u1, ov) == 0.0
  {
    hide Request.Valid, Request.Bell;
  }

  lemma BellBoxStep(r: Request, c: Point, u0: int, u1: int, v0: int, v1: int)
    requires r.Valid()
    ensures v0 < v1 ==> r.BellBox(c, u0, u1, v0, v1) == r.BellBox(c, u0, u1, v0, v1 - 1) + r.BellRow(c, u0, u1, v1 - 1)
    ensures v0 >= v1 ==> r.BellBox(c, u0, u1, v0, v1) == 0.0
  {
    hide Request.Valid, Request.BellRow;
  }

  lemma AreaRowStep(r: Request, x: int, y: int, u: int, m: nat, ov: int)
    requires r.Valid() && r.Inside(x, y)
    ensures m > 0 ==> AreaRow(r, x, y, u, m, ov) == AreaRow(r, x, y, u, m - 1, ov) + r.AreaOn(x, y, u + m - 1, ov)
    ensures m == 0 ==> AreaRow(r, x, y, u, m, ov) == 0.0
  {
    hide Request.Valid, Request.AreaOn;
  }

  lemma AreaBoxStep(r: Request, x: int, y: int, u: int, m: nat, v: int, n: nat)
    requires r.Valid() && r.Inside(x, y)
    ensures n > 0 ==>
      AreaBox(r, x, y, u, m, v, n) == AreaBox(r, x, y, u, m, v, n - 1) + AreaRow(r, x, y, u, m, v + n - 1)
    ensures n == 0 ==> AreaBox(r, x, y, u, m, v, n) == 0.0
  {
    hide Request.Valid, AreaRow;
  }

  lemma {:induction false} GaussianRow(r: Request, x: int, y: int, c: Point, u0: int, u1: int, v0: int, v1: int,
                                       n: nat, ov: int)
    requires r.Valid() && r.Inside(x, y) && r.kernel == Gaussian && c == r.Centre(x, y)
    requires BellLoops(r, c, u0, u1, v0, v1) && u0 + n <= u1 && v0 <= ov < v1 && r.BellTotal(c) > 0.0
    ensures AreaRow(r, x, y, u0, n, ov) == Share(r, r.BellRow(c, u0, u0 + n, ov), r.BellTotal(c))
  {
    hide *;
    AreaRowStep(r, x, y, u0, n, ov);
    BellRowStep(r, c, u0, u0 + n, ov);
    if n > 0 {
      GaussianRow(r, x, y, c, u0, u1, v0, v1, n - 1, ov);
      PixelShare(r, x, y, c, u0, u1, v0, v1, u0 + n - 1, ov);
      SharesAdd(r, r.BellRow(c, u0, u0 + n - 1, ov), r.Bell(c, u0 + n - 1, ov), r.BellTotal(c));
    } else {
      SharesAdd(r, 0.0, 0.0, r.BellTotal(c));
    }
  }

  lemma {:induction false} GaussianBox(r: Request, x: int, y: int, c: Point, u0: int, u1: int, v0: int, v1: int,
                                       n: nat)
    requires r.Valid() && r.Inside(x, y) && r.kernel == Gaussian && c == r.Centre(x, y)
    requires BellLoops(r, c, u0, u1, v0, v1) && u0 <= u1 && v0 + n <= v1 && r.BellTotal(c) > 0.0
    ensures AreaBox(r, x, y, u0, u1 - u0, v0, n) == Share(r, r.BellBox(c, u0, u1, v0, v0 + n), r.BellTotal(c))
  {
    hide *;
    AreaBoxStep(r, x, y, u0, u1 - u0, v0, n);
    BellBoxStep(r, c, u0, u1, v0, v0 + n);
    if n > 0 {
      GaussianBox(r, x, y, c, u0, u1, v0, v1, n - 1);
      GaussianRow(r, x, y, c, u0, u1, v0, v1, u1 - u0, v0 + n - 1);
      SharesAdd(r, r.BellBox(c, u0, u1, v0, v0 + n - 1), r.BellRow(c, u0, u1, v0 + n - 1), r.BellTotal(c));
    } else {
      SharesAdd(r, 0.0, 0.0, r.BellTotal(c));
    }
  }

  lemma WholeShare(r: Request, total: real)
    requires r.Valid() && total != 0.0
    ensures Share(r, total, total) == r.pixfrac * r.pixfrac * r.Jacobian()
  {
    hide Request.Valid, Request.Jacobian;
    Whole(r.pixfrac * r.pixfrac * r.Jacobian(), total);
  }

  lemma Whole(k: real, t: real)
    requires t != 0.0
    ensures k * t / t == k
  {}

  /** The Gaussian drop is normalized over the pixels its loops visit: it leaves the same pixfrac^2 * Jacobian. */
  lemma GaussianConserved(r: Request, x: int, y: int, u0: int, u1: int, v0: int, v1: int)
    requires r.Valid() && r.Inside(x, y) && r.kernel == Gaussian && BellLoops(r, r.Centre(x, y), u0, u1, v0, v1)
      && r.BellTotal(r.Centre(x, y)) > 0.0
    ensures u0 <= u1 && v0 <= v1 && AreaBox(r, x, y, u0, u1 - u0, v0, v1 - v0) == r.pixfrac * r.pixfrac * r.Jacobian()
  {
    hide *;
    var c := r.Centre(x, y);
    TotalIs(r, c, u0, u1, v0, v1);
    if u1 < u0 {
      EmptyBell(r, c, u0, u1, v0, v1);
      assert false;
    } else {
      GaussianBox(r, x, y, c, u0, u1, v0, v1, v1 - v0);
      WholeShare(r, r.BellTotal(c));
    }
  }

  lemma TotalIs(r: Request, c: Point, u0: int, u1: int, v0: int, v1: int)
    requires r.Valid() && BellLoops(r, c, u0, u1, v0, v1)
    ensures v0 <= v1 && r.BellTotal(c) == r.BellBox(c, u0, u1, v0, v1)
  {
    SigmaPositive(r);
    hide Request.Valid, Request.Sigma, Request.BellBox;
  }

  lemma {:induction false} EmptyBell(r: Request, c: Point, u0: int, u1: int, v0: int, v1: int)
    requires r.Valid() && u1 <= u0
    ensures r.BellBox(c, u0, u1, v0, v1) == 0.0
    decreases v1 - v0
  {
    hide Request.Valid;
    if v0 < v1 {
      EmptyBell(r, c, u0, u1, v0, v1 - 1);
    }
  }
}
