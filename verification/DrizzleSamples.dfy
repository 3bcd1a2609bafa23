/**
 Which source pixels BandOnReference (native/src/DrizzleKernel.cpp) counts and what they carry, told by the pixel's
 place on the Bayer matrix and by the reference point (X, Y) that its centre maps to, in units of the reference grid.
 */
module DrizzleSamples {
  import opened Wrappers
  import opened PooledWindow
  import OffsetGrid
  import opened PolygonClip
  import opened HomographyMaps
  import opened DrizzleSource
  import opened Reals

  /** The pixel's mapped centre is at `scale` times the reference point. */
  predicate RefersTo(r: Request, x: int, y: int, X: real, Y: real)
    requires r.Valid() && r.Inside(x, y)
  {
    X * r.scale as real == r.Centre(x, y).x && Y * r.scale as real == r.Centre(x, y).y
  }

  lemma Divided(c: real, scale: real, q: real)
    requires scale > 0.0 && q * scale == c
    ensures c / scale == q
  {
    var p := c / scale;
    TimesQuotient(c, scale, p);
    assert (p - q) * scale == p * scale - q * scale;
    ZeroProduct(p - q, scale);
  }

  lemma ScalePositive(r: Request)
    requires r.Valid()
    ensures r.scale as real > 0.0
  {
    hide Request.InFront, Homography.Det, IsRoot;
  }

  lemma ReferenceIs(r: Request, x: int, y: int, X: real, Y: real)
    requires r.Valid() && r.Inside(x, y) && RefersTo(r, x, y, X, Y)
    ensures r.Centre(x, y).x / r.scale as real == X && r.Centre(x, y).y / r.scale as real == Y
  {
    hide Request.Centre, Request.Valid;
    ScalePositive(r);
    Divided(r.Centre(x, y).x, r.scale as real, X);
    Divided(r.Centre(x, y).y, r.scale as real, Y);
  }

  /** The parts of the test, at the reference point. */
  lemma SampleParts(r: Request, x: int, y: int, X: real, Y: real)
    requires r.Valid() && r.Inside(x, y) && RefersTo(r, x, y, X, Y)
    ensures var pixel, p, s := r.source[y - r.row0][x], Point(X, Y), r.SampleOf(x, y);
      && (s.Some? <==>
            && pixel.Fin? && (r.channel.Some? ==> r.pattern[y % 2 * 2 + x % 2] == r.channel.value)
            && (r.mask.Some? ==> r.Accepted(Round(X), Round(Y))) && r.WeightAt(p) > 0.0)
      && (s.Some? ==> s.value.weight == r.WeightAt(p) && s.value.value == r.Normalized(pixel.value, p))
  {
    hide Request.Centre, Request.Accepted, Request.WeightAt, Request.Normalized, Request.InFront, Homography.Det,
      IsRoot,
         Round, RefersTo;
    ReferenceIs(r, x, y, X, Y);
  }

  /** The 2 x 2 matrix in reading order: even and odd columns of even rows, then of odd rows. */
  lemma CountedColour(r: Request, x: int, y: int)
    requires r.Valid() && r.Inside(x, y) && r.channel.Some? && r.SampleOf(x, y).Some?
    ensures y % 2 == 0 && x % 2 == 0 ==> r.pattern[0] == r.channel.value
    ensures y % 2 == 0 && x % 2 == 1 ==> r.pattern[1] == r.channel.value
    ensures y % 2 == 1 && x % 2 == 0 ==> r.pattern[2] == r.channel.value
    ensures y % 2 == 1 && x % 2 == 1 ==> r.pattern[3] == r.channel.value
  {
    hide Request.Centre, Request.Accepted, Request.WeightAt, Request.Normalized, Request.InFront, Homography.Det,
      IsRoot;
  }

  lemma AnyChannel(r: Request)
    requires r.Valid()
    ensures r.(channel := None).Valid()
  {
    hide Request.InFront, Homography.Det, IsRoot, NodeGrid.Valid;
    assert r.(channel := None).InFront() == r.InFront() by {
      SameFront(r);
    }
  }

  lemma SameFront(r: Request)
    ensures r.(channel := None).InFront() == r.InFront()
  {}

  lemma SameReference(r: Request, x: int, y: int)
    requires r.Valid() && r.Inside(x, y)
    ensures var all := r.(channel := None);
      && all.Valid() && all.Inside(x, y) && all.Centre(x, y) == r.Centre(x, y)
      && forall mx, my :: r.mask.Some? ==> all.Accepted(mx, my) == r.Accepted(mx, my)
  {
    AnyChannel(r);
    InFrame(r, x as real, y as real);
    InFrame(r.(channel := None), x as real, y as real);
    hide Request.Valid, Homography.Map, Homography.W;
  }

  lemma NormalizedIs(r: Request, v: real, p: Point, offset: real)
    requires r.Valid() && offset == if r.offsets.Some? then r.offsets.value.At(p) else 0.0
    ensures r.Normalized(v, p) == r.gain * v + r.shift + offset
  {
    hide NodeGrid.At, Request.Valid;
  }

  lemma WeightIs(r: Request, p: Point, w: real)
    requires r.Valid() && r.weights.Some? && w == r.weights.value.At(p)
    ensures r.WeightAt(p) == r.frameWeight * w
  {
    hide NodeGrid.At, Request.Valid;
  }

  lemma ValidGrids(r: Request)
    requires r.Valid()
    ensures (r.offsets.Some? ==> r.offsets.value.Valid()) && (r.weights.Some? ==> r.weights.value.Valid())
  {}

  lemma SameCarried(r: Request, v: real, p: Point)
    requires r.Valid()
    ensures var all := r.(channel := None);
      all.Valid() && all.WeightAt(p) == r.WeightAt(p) && all.Normalized(v, p) == r.Normalized(v, p)
  {
    hide Request.Valid, NodeGrid.At, NodeGrid.Valid, Request.WeightAt, Request.Normalized;
    AnyChannel(r);
    ValidGrids(r);
    var all := r.(channel := None);
    var offset := if r.offsets.Some? then r.offsets.value.At(p) else 0.0;
    NormalizedIs(r, v, p, offset);
    NormalizedIs(all, v, p, offset);
    if r.weights.Some? {
      WeightIs(r, p, r.weights.value.At(p));
      WeightIs(all, p, r.weights.value.At(p));
    } else {
      FrameWeight(r, p);
      FrameWeight(all, p);
    }
  }

  lemma FrameWeight(r: Request, p: Point)
    requires r.Valid() && r.weights.None?
    ensures r.WeightAt(p) == r.frameWeight
  {
    hide Request.Valid;
  }

  /** Requests that differ in the channel alone part by colour what the one without a channel counts. */
  lemma ChannelsPartition(r: Request, x: int, y: int, c: nat)
    requires r.Valid() && r.Inside(x, y) && r.channel == Some(c)
    ensures var all := r.(channel := None);
      && all.Valid() && all.Inside(x, y)
      && (r.SampleOf(x, y).Some? <==> all.SampleOf(x, y).Some? && r.pattern[y % 2 * 2 + x % 2] == c)
      && (r.SampleOf(x, y).Some? ==> r.SampleOf(x, y) == all.SampleOf(x, y))
  {
    SameReference(r, x, y);
    var c := r.Centre(x, y);
    var p, pixel := Point(c.x / r.scale as real, c.y / r.scale as real), r.source[y - r.row0][x];
    SameCarried(r, if pixel.Fin? then pixel.value else 0.0, p);
    hide Request.Centre, Request.WeightAt, Request.Normalized, Request.InFront, Homography.Det, IsRoot, Round,
         Request.Accepted;
  }

  lemma RoundNearest(x: real)
    ensures Abs(x - Round(x) as real) <= 0.5
  {}

  lemma RoundIs(x: real, k: int)
    requires Abs(x - k as real) < 0.5
    ensures Round(x) == k
  {}

  /** A counted pixel refers to a point within half a pixel of an accepted mask pixel, in column and in row. */
  lemma CountedIsAccepted(r: Request, x: int, y: int, X: real, Y: real) returns (mx: nat, my: nat)
    requires r.Valid() && r.Inside(x, y) && RefersTo(r, x, y, X, Y) && r.mask.Some? && r.SampleOf(x, y).Some?
    ensures my < |r.mask.value| && mx < r.maskWidth && Abs(X - mx as real) <= 0.5 && Abs(Y - my as real) <= 0.5
    ensures |r.mask.value[my]| == r.maskWidth && r.mask.value[my][mx]
  {
    SampleParts(r, x, y, X, Y);
    RoundNearest(X);
    RoundNearest(Y);
    hide Request.SampleOf, Request.Centre, Request.WeightAt, Request.Normalized, Request.InFront, Homography.Det,
      IsRoot, Round, RefersTo;
    mx, my := Round(X), Round(Y);
  }

  /** And a point nearer than half a pixel to a mask pixel that is not accepted, or to none, is not counted. */
  lemma RejectedIsNotCounted(r: Request, x: int, y: int, X: real, Y: real, mx: int, my: int)
    requires r.Valid() && r.Inside(x, y) && RefersTo(r, x, y, X, Y) && r.mask.Some?
    requires Abs(X - mx as real) < 0.5 && Abs(Y - my as real) < 0.5
    requires 0 <= my < |r.mask.value| && 0 <= mx < r.maskWidth ==>
      |r.mask.value[my]| == r.maskWidth && !r.mask.value[my][mx]
    ensures r.SampleOf(x, y) == None
  {
    SampleParts(r, x, y, X, Y);
    RoundIs(X, mx);
    RoundIs(Y, my);
    hide Request.SampleOf, Request.Centre, Request.WeightAt, Request.Normalized, Request.InFront, Homography.Det,
      IsRoot, Round, RefersTo;
  }

  /** The grid's nodes hold a bilinear function of the reference coordinates. */
  ghost predicate Holds(g: NodeGrid, p: OffsetGrid.Bilinear)
    requires g.Valid()
  {
    forall j, i :: 0 <= j < |g.yNodes| && 0 <= i < |g.xNodes| ==> g.values[j][i] == p.Value(g.xNodes[i], g.yNodes[j])
  }

  /** The reference point lies between the outer nodes. */
  predicate Within(g: NodeGrid, X: real, Y: real) {
    |g.xNodes| >= 2 && |g.yNodes| >= 2 && g.xNodes[0] <= X <= g.xNodes[|g.xNodes| - 1]
    && g.yNodes[0] <= Y <= g.yNodes[|g.yNodes| - 1]
  }

  lemma GridAt(g: NodeGrid, p: OffsetGrid.Bilinear, X: real, Y: real)
    requires g.Valid() && Holds(g, p) && Within(g, X, Y)
    ensures g.At(Point(X, Y)) == p.Value(X, Y)
  {
    OffsetGrid.BilinearReproduced(p, g.values, g.xNodes, g.yNodes, X, Y);
    hide OffsetGrid.At, OffsetGrid.Bilinear.Value;
  }

  /** The normalized value: the pixel times the gain, the offset grid read at the reference point, and the shift. */
  lemma NormalizedValue(r: Request, x: int, y: int, X: real, Y: real, p: OffsetGrid.Bilinear)
    requires r.Valid() && r.Inside(x, y) && RefersTo(r, x, y, X, Y) && r.SampleOf(x, y).Some? && r.offsets.Some?
      && r.offsets.value.Valid()
    requires Holds(r.offsets.value, p) && Within(r.offsets.value, X, Y)
    ensures 0 <= y - r.row0 < |r.source| && 0 <= x < |r.source[y - r.row0]| && r.source[y - r.row0][x].Fin?
    ensures r.SampleOf(x, y).value.value == r.gain * r.source[y - r.row0][x].value + r.shift + p.Value(X, Y)
  {
    hide Request.SampleOf, Request.Centre, Request.WeightAt, Request.Normalized, Request.InFront, Homography.Det,
      IsRoot,
         RefersTo, Holds, Within, OffsetGrid.Bilinear.Value, NodeGrid.At;
    SampleParts(r, x, y, X, Y);
    GridAt(r.offsets.value, p, X, Y);
    NormalizedIs(r, r.source[y - r.row0][x].value, Point(X, Y), p.Value(X, Y));
  }

  /** Without an offset grid the gain and the shift alone. */
  lemma PlainValue(r: Request, x: int, y: int, X: real, Y: real)
    requires r.Valid() && r.Inside(x, y) && RefersTo(r, x, y, X, Y) && r.SampleOf(x, y).Some? && r.offsets.None?
    ensures 0 <= y - r.row0 < |r.source| && 0 <= x < |r.source[y - r.row0]| && r.source[y - r.row0][x].Fin?
    ensures r.SampleOf(x, y).value.value == r.gain * r.source[y - r.row0][x].value + r.shift
  {
    hide Request.SampleOf, Request.Centre, Request.WeightAt, Request.Normalized, Request.InFront, Homography.Det,
      IsRoot,
         RefersTo;
    SampleParts(r, x, y, X, Y);
    NormalizedIs(r, r.source[y - r.row0][x].value, Point(X, Y), 0.0);
  }

  /** The weight: the frame's times the weight grid read at the reference point. */
  lemma SampleWeight(r: Request, x: int, y: int, X: real, Y: real, p: OffsetGrid.Bilinear)
    requires r.Valid() && r.Inside(x, y) && RefersTo(r, x, y, X, Y) && r.SampleOf(x, y).Some? && r.weights.Some?
      && r.weights.value.Valid()
    requires Holds(r.weights.value, p) && Within(r.weights.value, X, Y)
    ensures r.SampleOf(x, y).value.weight == r.frameWeight * p.Value(X, Y) > 0.0
  {
    hide Request.SampleOf, Request.Centre, Request.WeightAt, Request.Normalized, Request.Valid, RefersTo, Holds, Within,
         OffsetGrid.Bilinear.Value, NodeGrid.At, NodeGrid.Valid;
    SampleParts(r, x, y, X, Y);
    GridAt(r.weights.value, p, X, Y);
    WeightIs(r, Point(X, Y), p.Value(X, Y));
  }

  /** A point drop leaves all its area on the pixel its centre falls into, inside or on the border, and no other. */
  lemma PointLands(r: Request, x: int, y: int)
    requires r.Valid() && r.Inside(x, y) && r.kernel == PointDrop
    ensures exists ou, ov ::
      && r.AreaOn(x, y, ou, ov) == 1.0
      && Abs(r.Centre(x, y).x - ou as real) <= 0.5 && Abs(r.Centre(x, y).y - ov as real) <= 0.5
      && forall u, v :: u != ou || v != ov ==> r.AreaOn(x, y, u, v) == 0.0
  {
    var c := r.Centre(x, y);
    RoundNearest(c.x);
    RoundNearest(c.y);
    hide Request.Centre, Request.Valid, Round;
    assert r.AreaOn(x, y, Round(c.x), Round(c.y)) == 1.0;
  }

  /** The local scale is a true root of the area factor, and the drop radius and the Gaussian width follow it. */
  lemma DropSizes(r: Request)
    requires r.Valid() && r.Jacobian() >= 0.000000000001
    ensures RootedBy(r.LocalScale(), r.Jacobian())
    ensures 2.0 * r.DropRadius() == r.pixfrac * r.LocalScale()
    ensures 2.3548200450309493 * r.Sigma() == r.pixfrac * r.LocalScale()
  {
    hide Request.Jacobian, Request.LocalScale, Request.Valid, IsRoot, Request.DropRadius, Request.Sigma;
    ScaleIs(r, r.Jacobian());
    Rooted(r);
    Rooting(r.root, r.Jacobian());
    MarginIs(r, r.LocalScale(), r.pixfrac);
    var size := r.pixfrac * r.LocalScale();
  }

  lemma Rooted(r: Request)
    requires r.Valid()
    ensures IsRoot(r.root)
  {
    hide IsRoot;
  }

  predicate RootedBy(s: real, j: real) { s >= 0.0 && s * s == j }

  lemma Rooting(root: real -> real, j: real)
    requires IsRoot(root) && j >= 0.0
    ensures RootedBy(root(j), j)
  {}

  // ----- round drops -----

  /** The loops of the round drops reach the pixels less than half a pixel past the radius, on either side. */
  lemma ReachIff(c: real, reach: real, o: int)
    ensures InReach(c, reach, o) <==> c - reach - 0.5 < o as real <= c + reach + 0.5
  {}

  /** The squared distance of a pixel's centre from a point. */
  function DistanceSquared(c: Point, ou: int, ov: int): real {
    (ou as real - c.x) * (ou as real - c.x) + (ov as real - c.y) * (ov as real - c.y)
  }

  /** The pixel lies within the reach of a Gaussian drop. */
  predicate Reached(r: Request, c: Point, ou: int, ov: int)
    requires r.Valid()
  {
    InReach(c.x, 3.0 * r.Sigma(), ou) && InReach(c.y, 3.0 * r.Sigma(), ov)
  }

  /** The exponential of a squared distance in units of twice the squared width. */
  function Fall(r: Request, square: real): real
    requires r.Valid()
  {
    SigmaPositive(r);
    r.exp(-square / (2.0 * r.Sigma() * r.Sigma()))
  }

  lemma BellIs(r: Request, c: Point, ou: int, ov: int)
    requires r.Valid()
    ensures r.Bell(c, ou, ov) == Fall(r, DistanceSquared(c, ou, ov))
  {
    hide Request.Valid, Request.Sigma;
  }

  lemma CrossShares(k: real, a: real, b: real, t: real, p: real, q: real)
    requires t > 0.0 && p == k * a / t && q == k * b / t
    ensures p * b == q * a
  {
    TimesQuotient(k * a, t, p);
    TimesQuotient(k * b, t, q);
    assert (p * b - q * a) * t == p * t * b - q * t * a;
    assert k * a * b == k * b * a;
  }

  /** Two pixels within reach of a Gaussian drop share it in the proportion of their exponentials. */
  lemma GaussianShape(r: Request, x: int, y: int, ou: int, ov: int, pu: int, pv: int)
    requires r.Valid() && r.Inside(x, y) && r.kernel == Gaussian && r.BellTotal(r.Centre(x, y)) > 0.0
    requires Reached(r, r.Centre(x, y), ou, ov) && Reached(r, r.Centre(x, y), pu, pv)
    ensures var c := r.Centre(x, y);
        r.AreaOn(x, y, ou, ov) * Fall(r, DistanceSquared(c, pu, pv))
          == r.AreaOn(x, y, pu, pv) * Fall(r, DistanceSquared(c, ou, ov))
  {
    hide Request.Valid, Request.Sigma, Request.Bell, Request.BellTotal, Request.Centre, Request.Jacobian, Fall,
      DistanceSquared, InReach;
    var c := r.Centre(x, y);
    BellIs(r, c, ou, ov);
    BellIs(r, c, pu, pv);
    CrossShares(r.pixfrac * r.pixfrac * r.Jacobian(), r.Bell(c, ou, ov), r.Bell(c, pu, pv), r.BellTotal(c),
        r.AreaOn(x, y, ou, ov), r.AreaOn(x, y, pu, pv));
  }

  /** A circular drop leaves on a pixel within its reach the area of its disc there, and nothing elsewhere. */
  lemma CircularArea(r: Request, x: int, y: int, ou: int, ov: int)
    requires r.Valid() && r.Inside(x, y) && r.kernel == Circular
    ensures var c, radius := r.Centre(x, y), r.DropRadius();
        r.AreaOn(x, y, ou, ov) == if c.x - radius - 0.5 < ou as real <= c.x + radius + 0.5
          && c.y - radius - 0.5 < ov as real <= c.y + radius + 0.5 then r.disc(c.x, c.y, radius, ou, ov) else 0.0
  {
    hide Request.Valid, Request.Centre, Request.DropRadius, InReach;
    var c, radius := r.Centre(x, y), r.DropRadius();
    ReachIff(c.x, radius, ou);
    ReachIff(c.y, radius, ov);
  }
}
