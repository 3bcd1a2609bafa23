/**
 Exactly when BandOnReference (native/src/DrizzleKernel.cpp) loses nothing by skipping source pixels: the margin
 covers the mapped drop, and the rise of a level row as well.
 */
module DrizzleCulling {
  import opened Wrappers
  import opened PooledWindow
  import opened PolygonClip
  import opened CornerArea
  import opened HomographyMaps
  import opened DrizzleSource
  import opened DrizzleReach
  import opened DrizzleAffine
  import opened DrizzleTotals
  import opened DrizzleBand
  import opened Reals

  /** Requests that differ from r at most in the shift, the frame, the band and what the pixels carry. */
  ghost predicate SameShape(r: Request, q: Request) {
    && q.Valid() && q.forward.IsAffine() && q.kernel == r.kernel && q.pixfrac == r.pixfrac && q.width == r.width
    && q.root == r.root
    && q.forward.m0 == r.forward.m0 && q.forward.m1 == r.forward.m1
    && q.forward.m3 == r.forward.m3 && q.forward.m4 == r.forward.m4
  }

  lemma JacobianIsShape(r: Request, a: real, b: real, c: real, d: real, j: real)
    requires r.Valid() && r.forward.IsAffine() && r.forward.m0 == a && r.forward.m1 == b && r.forward.m3 == c
      && r.forward.m4 == d
    requires j == a * d - b * c
    ensures r.Jacobian() == Abs(j)
  {
    hide Request.Jacobian;
    JacobianIsDet(r);
    AffineInverse(r.forward);
  }

  lemma DeterminantIs(r: Request)
    requires r.Valid() && r.forward.IsAffine()
    ensures r.forward.Det() == r.forward.m0 * r.forward.m4 - r.forward.m1 * r.forward.m3
  {
    AffineInverse(r.forward);
  }

  lemma SameScale(r: Request, q: Request)
    requires r.Valid() && r.forward.IsAffine() && SameShape(r, q)
    ensures q.Valid() && q.LocalScale() == r.LocalScale()
  {
    hide Request.Valid, Request.Jacobian, Request.LocalScale, Abs;
    var h := r.forward;
    var j := h.m0 * h.m4 - h.m1 * h.m3;
    JacobianIsShape(r, h.m0, h.m1, h.m3, h.m4, j);
    JacobianIsShape(q, h.m0, h.m1, h.m3, h.m4, j);
    ScaleIs(r, r.Jacobian());
    ScaleIs(q, r.Jacobian());
  }

  /** The margin, the reach and the rise depend on the shape alone. */
  lemma SameMargin(r: Request, q: Request)
    requires r.Valid() && r.forward.IsAffine() && SameShape(r, q)
    ensures q.Valid() && q.Margin() == r.Margin() && Rise(q) == Rise(r)
    ensures Reach(q, true) == Reach(r, true) && Reach(q, false) == Reach(r, false)
  {
    hide Request.Valid, Request.LocalScale, Request.Margin, Request.DropRadius, Request.Sigma, Abs;
    SameScale(r, q);
    MarginIs(r, r.LocalScale(), r.pixfrac);
    MarginIs(q, r.LocalScale(), r.pixfrac);
  }

  // ----- a request with one pixel whose drop has a corner at a chosen point -----

  /** The corner (half, CornerRow) of a drop is an extreme one: both terms of p * dx + q * dy have the sign of p. */
  function CornerRow(p: real, q: real, half: real): real {
    if (p >= 0.0) == (q >= 0.0) then half else -half
  }

  function Toward(p: real, distance: real): real {
    if p >= 0.0 then distance else -distance
  }

  lemma LegSum(p: real, q: real, half: real)
    ensures p * half + q * CornerRow(p, q, half) == Toward(p, half * Abs(p) + half * Abs(q))
  {
    assert p >= 0.0 ==> half * Abs(p) == p * half;
    assert p < 0.0 ==> half * Abs(p) == -(p * half);
    assert q >= 0.0 ==> half * Abs(q) == q * half;
    assert q < 0.0 ==> half * Abs(q) == -(q * half);
    assert q * -half == -(q * half);
  }

  function OnlyPixel(width: nat, x: nat): seq<Float> {
    seq(width, i => if i == x then Fin(1.0) else NonFinite)
  }

  /** One row in which only pixel x counts, one output pixel, and the shift that maps (x + dx, dy) to the target. */
  function Witness(r: Request, x: nat, dx: real, dy: real, target: Point): Request {
    var h := r.forward;
    r.(source := [OnlyPixel(r.width, x)], row0 := 0,
       forward := Homography(h.m0, h.m1, target.x - (h.m0 * (x as real + dx) + h.m1 * dy),
                             h.m3, h.m4, target.y - (h.m3 * (x as real + dx) + h.m4 * dy), 0.0, 0.0, 1.0),
       scale := 1, gain := 1.0, shift := 0.0, offsets := None, weights := None, mask := None, channel := None,
       frameWeight := 1.0, outputWidth := 1, outputRows := 1, outputRow0 := 0)
  }

  lemma WitnessIsValid(r: Request, x: nat, dx: real, dy: real, target: Point)
    requires r.Valid() && r.forward.IsAffine() && x < r.width
    ensures var q := Witness(r, x, dx, dy, target); SameShape(r, q) && q.Inside(x, 0)
  {
    DeterminantIs(r);
    var q := Witness(r, x, dx, dy, target);
    assert q.forward.Det() == q.forward.m0 * q.forward.m4 - q.forward.m1 * q.forward.m3;
    AffineSided(q.forward, -1.0, q.width as real, -1.0, 1.0);
  }

  lemma ShiftedTo(p: real, q: real, c: real, x: real, dx: real, dy: real, target: real)
    requires c == target - (p * (x + dx) + q * dy)
    ensures p * (x + dx) + q * (0.0 + dy) + c == target
    ensures p * x + q * 0.0 + c == target - (p * dx + q * dy)
  {
    assert p * (x + dx) == p * x + p * dx;
  }

  /** The corner lands on the target, and the centre a leg sum away. */
  lemma WitnessPoints(r: Request, x: nat, dx: real, dy: real, target: Point)
    requires r.Valid() && r.forward.IsAffine() && x < r.width
    ensures var q := Witness(r, x, dx, dy, target);
      q.Valid() && q.forward.W(x as real + dx, dy) != 0.0 && q.forward.Map(x as real + dx, dy) == target
      && q.Centre(x, 0).x == target.x - (r.forward.m0 * dx + r.forward.m1 * dy)
      && q.Centre(x, 0).y == target.y - (r.forward.m3 * dx + r.forward.m4 * dy)
  {
    WitnessIsValid(r, x, dx, dy, target);
    var q := Witness(r, x, dx, dy, target);
    var h := q.forward;
    hide Request.Valid;
    AffinePoint(h, x as real + dx, dy);
    AffinePoint(h, x as real, 0.0);
    ShiftedTo(h.m0, h.m1, h.m2, x as real, dx, dy, target.x);
    ShiftedTo(h.m3, h.m4, h.m5, x as real, dx, dy, target.y);
  }

  /** The drop of pixel x leaves some area on output pixel (0, 0). */
  lemma WitnessArea(r: Request, x: nat, dy: real, target: Point)
    requires r.Valid() && r.forward.IsAffine() && r.kernel == Square && x < r.width
      && (dy == r.Half() || dy == -r.Half())
    requires -0.5 < target.x < 0.5 && -0.5 < target.y < 0.5
    ensures var q := Witness(r, x, r.Half(), dy, target); q.Valid() && q.AreaOn(x, 0, 0, 0) > 0.0
  {
    var q := Witness(r, x, r.Half(), dy, target);
    WitnessIsValid(r, x, r.Half(), dy, target);
    WitnessPoints(r, x, r.Half(), dy, target);
    StrictDrop(q, x, 0);
    var ccw, drop := Orientation(q, x, 0), q.Drop(x, 0);
    DropCorners(q, x);
    hide Request.Valid, Request.Drop, Orientation, Homography.Map, Homography.W, Witness;
    QuadCornerOverlap(ccw, drop, if dy == r.Half() then 2 else 1, 0, 0);
  }

  lemma DropCorners(q: Request, x: int)
    requires q.Valid() && q.Inside(x, 0)
    ensures var d, h, half := q.Drop(x, 0), q.forward, q.Half();
      |d| == 4 && h.W(x as real + half, -half) != 0.0 && h.W(x as real + half, half) != 0.0
      && d[1] == h.Map(x as real + half, -half) && d[2] == h.Map(x as real + half, half)
  {
    var half := q.Half();
    DropOneSided(q, x, 0);
    assert 0.0 - half == -half && 0.0 + half == half;
    hide Homography.Map, Homography.W, Request.Valid;
  }

  // ----- what the loops and the naive sum make of it -----

  lemma WitnessSample(r: Request, x: nat, dx: real, dy: real, target: Point, i: int)
    requires r.Valid() && r.forward.IsAffine() && x < r.width && 0 <= i < r.width
    ensures var q := Witness(r, x, dx, dy, target);
      q.Valid() && q.Inside(i, 0) && q.SampleOf(i, 0) == if i == x then Some(Sample(1.0, 1.0)) else None
  {
    WitnessIsValid(r, x, dx, dy, target);
    hide Request.Valid, Request.Centre;
  }

  /** The naive sum sees the drop. */
  lemma WitnessIsSeen(r: Request, x: nat, dx: real, dy: real, target: Point)
    requires r.Valid() && r.forward.IsAffine() && x < r.width
    requires var q := Witness(r, x, dx, dy, target); q.Valid() ==> q.AreaOn(x, 0, 0, 0) > 0.0
    ensures var q := Witness(r, x, dx, dy, target);
      q.Valid() && q.Inside(x, 0) && q.DropInk(x, 0, 0, 0).weight > 0.0 && NaiveInk(q, 0, 0).weight > 0.0
  {
    WitnessIsValid(r, x, dx, dy, target);
    WitnessSample(r, x, dx, dy, target, x);
    var q := Witness(r, x, dx, dy, target);
    hide Request.Valid, Request.AreaOn, Request.SampleOf;
    assert q.DropInk(x, 0, 0, 0).weight > 0.0;
    hide Request.DropInk;
    RowSees(q, x, q.width);
    assert q.AllInk(1, 0, 0) == q.AllInk(0, 0, 0).Plus(q.RowInk(0, q.width, 0, 0));
  }

  lemma {:induction false} RowSees(q: Request, x: nat, n: nat)
    requires q.Valid() && q.Inside(x, 0) && x < n <= q.width && q.DropInk(x, 0, 0, 0).weight > 0.0
    ensures q.RowInk(0, n, 0, 0).weight > 0.0
  {
    hide Request.Valid, Request.DropInk;
    if n > x + 1 {
      RowSees(q, x, n - 1);
    }
  }

  lemma PixelLost(r: Request, x: nat, dx: real, dy: real, target: Point, i: int)
    requires r.Valid() && r.forward.IsAffine() && x < r.width && 0 <= i < r.width
    requires var q := Witness(r, x, dx, dy, target); q.Valid() ==> !Visited(q, x, 0, 0, 1)
    ensures var q := Witness(r, x, dx, dy, target);
      q.Valid() && q.Inside(i, 0) && PixelInk(q, i, 0, 0, 1, 0, 0) == NOTHING
  {
    hide Request.Valid, Visited, Request.SampleOf, Request.AreaOn, Request.Inside, Witness;
    WitnessSample(r, x, dx, dy, target, i);
  }

  /** If its pixel is not visited, the loops add nothing. */
  lemma WitnessIsLost(r: Request, x: nat, dx: real, dy: real, target: Point)
    requires r.Valid() && r.forward.IsAffine() && x < r.width
    requires var q := Witness(r, x, dx, dy, target); q.Valid() ==> !Visited(q, x, 0, 0, 1)
    ensures var q := Witness(r, x, dx, dy, target); q.Valid() && BandInk(q, 0, 1, 0, 0) == NOTHING
  {
    hide Request.Valid, Request.Inside, Visited, PixelInk;
    WitnessIsValid(r, x, dx, dy, target);
    var q := Witness(r, x, dx, dy, target);
    forall i | 0 <= i < q.width
      ensures q.Inside(i, 0) && PixelInk(q, i, 0, 0, 1, 0, 0) == NOTHING
    {
      PixelLost(r, x, dx, dy, target, i);
    }
    BandLost(q);
  }

  lemma BandLost(q: Request)
    requires q.Valid() && q.row0 == 0 && |q.source| == 1
    requires forall i :: 0 <= i < q.width ==> q.Inside(i, 0) && PixelInk(q, i, 0, 0, 1, 0, 0) == NOTHING
    ensures BandInk(q, 0, 1, 0, 0) == NOTHING
  {
    hide *;
    RowLost(q, q.width);
    AllStep(q, 1, 0, 1, 0, 0);
    NoRowsYet(q, 0, 1, 0, 0);
    BandIs(q, 1, 0, 1, 0, 0);
    PlusNothing(NOTHING);
  }

  lemma BandIs(q: Request, n: int, first: int, past: int, ou: int, ov: int)
    requires q.Valid() && n == q.row0 + |q.source|
    ensures BandInk(q, first, past, ou, ov) == ChunkInk(q, n, first, past, ou, ov)
  {
    hide Request.Valid, ChunkInk;
  }

  lemma {:induction false} RowLost(q: Request, n: nat)
    requires q.Valid() && q.row0 == 0 && |q.source| == 1 && n <= q.width
    requires forall i :: 0 <= i < q.width ==> q.Inside(i, 0) && PixelInk(q, i, 0, 0, 1, 0, 0) == NOTHING
    ensures RowsInk(q, 0, n, 0, 1, 0, 0) == NOTHING
  {
    hide *;
    if n > 0 {
      RowLost(q, n - 1);
      RowStep(q, 0, n, 0, 1, 0, 0);
      PlusNothing(NOTHING);
    } else {
      EmptySum(q, 0, 0, 1, 0, 0);
    }
  }

  // ----- a margin that is too small loses a drop -----

  /** A request of one output pixel that pixel x of the row reaches. */
  ghost predicate Reaches(r: Request, q: Request, x: int) {
    && SameShape(r, q) && q.outputRow0 == 0 && q.outputRows == 1 && q.outputWidth == 1 && q.Inside(x, 0)
    && q.DropInk(x, 0, 0, 0).weight > 0.0 && NaiveInk(q, 0, 0).weight > 0.0
  }

  /** A corner just inside the pixel, sideways of the centre. */
  lemma Sideways(r: Request, d: real) returns (q: Request)
    requires r.Valid() && r.forward.IsAffine() && r.kernel == Square && 0.0 < d < 1.0
    ensures Reaches(r, q, 0) && q.Centre(0, 0).x == -Toward(r.forward.m0, 0.5 - d + Reach(r, true))
    ensures !Visited(q, 0, 0, 0, 1) ==> BandInk(q, 0, 1, 0, 0) == NOTHING
  {
    hide Request.Valid, Request.Margin, Request.AreaOn, Request.Centre, Request.SampleOf, Visited, Abs, BandInk,
        NaiveInk;
    WidthPositive(r);
    var h, half := r.forward, r.Half();
    var dy := CornerRow(h.m0, h.m1, half);
    var target := Point(-Toward(h.m0, 0.5 - d), 0.0);
    q := Witness(r, 0, half, dy, target);
    WitnessIsValid(r, 0, half, dy, target);
    WitnessPoints(r, 0, half, dy, target);
    WitnessArea(r, 0, dy, target);
    LegSum(h.m0, h.m1, half);
    WitnessIsSeen(r, 0, half, dy, target);
    if !Visited(q, 0, 0, 0, 1) {
      WitnessIsLost(r, 0, half, dy, target);
    }
  }

  /** A corner just inside the pixel, below or above the centre. */
  lemma Upright(r: Request, x: nat, d: real) returns (q: Request)
    requires r.Valid() && r.forward.IsAffine() && r.kernel == Square && x < r.width && 0.0 < d < 1.0
    ensures Reaches(r, q, x) && q.Centre(x, 0).y == -Toward(r.forward.m3, 0.5 - d + Reach(r, false))
    ensures !Visited(q, x, 0, 0, 1) ==> BandInk(q, 0, 1, 0, 0) == NOTHING
  {
    hide Request.Valid, Request.Margin, Request.AreaOn, Request.Centre, Request.SampleOf, Visited, Abs, BandInk,
        NaiveInk;
    var h, half := r.forward, r.Half();
    var dy := CornerRow(h.m3, h.m4, half);
    var target := Point(0.0, -Toward(h.m3, 0.5 - d));
    q := Witness(r, x, half, dy, target);
    WitnessIsValid(r, x, half, dy, target);
    WitnessPoints(r, x, half, dy, target);
    WitnessArea(r, x, dy, target);
    LegSum(h.m3, h.m4, half);
    WitnessIsSeen(r, x, half, dy, target);
    if !Visited(q, x, 0, 0, 1) {
      WitnessIsLost(r, x, half, dy, target);
    }
  }

  /** A drop that reaches farther than the margin: a pixel whose centre is just outside leaves something. */
  lemma UncoveredLost(r: Request) returns (q: Request)
    requires r.Valid() && r.forward.IsAffine() && r.kernel == Square && !Covered(r)
    ensures Reaches(r, q, 0) && !CentreInside(q, q.Centre(0, 0), 0, 1) && BandInk(q, 0, 1, 0, 0) == NOTHING
  {
    hide Request.Valid, Request.Margin, Request.DropInk, Request.Centre, Reach, Rise, BandInk, NaiveInk;
    WidthPositive(r);
    if Reach(r, true) > r.Margin() {
      q := Sideways(r, Sliver(Reach(r, true) - r.Margin()));
    } else {
      q := Upright(r, 0, Sliver(Reach(r, false) - r.Margin()));
    }
    SameMargin(r, q);
    assert !CentreInside(q, q.Centre(0, 0), 0, 1);
  }

  /** The pixel to lose: on a level row the last one, which the first one's test decides for. */
  function LostColumn(r: Request): (x: nat)
    requires r.Valid()
    ensures x < r.width
  {
    WidthPositive(r);
    if Abs(r.forward.m3) * (r.width as real - 1.0) <= LEVEL then r.width - 1 else 0
  }

  lemma LostRise(r: Request)
    requires r.Valid() && r.forward.IsAffine()
    ensures r.forward.m3 * LostColumn(r) as real == Toward(r.forward.m3, Rise(r))
  {
    WidthPositive(r);
    hide Request.Valid;
    var m, last := r.forward.m3, r.width as real - 1.0;
    assert m >= 0.0 ==> m * last == Abs(m) * last;
    assert m < 0.0 ==> m * last == -(Abs(m) * last);
  }

  /** A drop that reaches farther up or down than the margin less the rise of a level row. */
  lemma UprightLost(r: Request) returns (q: Request)
    requires r.Valid() && r.forward.IsAffine() && r.kernel == Square && Reach(r, false) + Rise(r) > r.Margin()
    ensures Reaches(r, q, LostColumn(r)) && BandInk(q, 0, 1, 0, 0) == NOTHING
  {
    hide *;
    RiseBounds(r);
    MarginPositive(r);
    var x, d := LostColumn(r), Sliver(Reach(r, false) + Rise(r) - r.Margin());
    q := Upright(r, x, d);
    ReachesParts(r, q, x);
    SameMargin(r, q);
    LostRise(r);
    RowIsLinear(q, x, 0);
    TowardSum(r.forward.m3, 0.5 - d + Reach(r, false), Rise(r));
    assert MappedRow(q, x, 0) == q.Centre(x, 0).y by {
      MappedRowIs(q, x, 0);
    }
    TowardSize(r.forward.m3, 0.5 - d + Reach(r, false) + Rise(r));
    EdgesOf(q, 0, 1);
    UprightSkipped(r, q, x);
  }

  lemma ReachesParts(r: Request, q: Request, x: int)
    requires Reaches(r, q, x)
    ensures SameShape(r, q) && q.Valid() && q.forward.IsAffine() && q.forward.m3 == r.forward.m3
    ensures q.Inside(x, 0) && q.Inside(0, 0) && IsRow(q, 0)
  {
    hide Request.Valid, Homography.IsAffine, Request.DropInk, NaiveInk;
  }

  lemma MappedRowIs(q: Request, x: int, y: int)
    requires q.Valid() && q.Inside(x, y)
    ensures MappedRow(q, x, y) == q.Centre(x, y).y
  {}

  lemma TowardSum(p: real, a: real, b: real)
    ensures Toward(p, a) + Toward(p, b) == Toward(p, a + b)
  {}

  lemma TowardSize(p: real, a: real)
    requires a >= 0.0
    ensures -Toward(p, a) == a || -Toward(p, a) == -a
  {}

  lemma EdgesOf(q: Request, first: int, past: int)
    requires q.Valid() && first == 0 && past == 1
    ensures TopEdge(q, first) == -0.5 - q.Margin() && BottomEdge(q, past) == 0.5 + q.Margin()
  {
    hide Request.Valid, Request.Margin;
  }

  /** The row is skipped for its first pixel if it is level; otherwise its first pixel is skipped itself. */
  lemma UprightSkipped(r: Request, q: Request, x: nat)
    requires r.Valid() && r.forward.IsAffine() && SameShape(r, q) && x == LostColumn(r)
    requires q.Inside(x, 0) && q.Inside(0, 0) && IsRow(q, 0)
    requires !(TopEdge(q, 0) <= MappedRow(q, 0, 0) <= BottomEdge(q, 1))
    ensures !Visited(q, x, 0, 0, 1)
  {
    hide Request.Valid, TopEdge, BottomEdge, LeftEdge, RightEdge, Abs, Level, Request.Centre, InRows,
        Homography.IsAffine;
    hide Solved, Slacked;
    LevelIs(q, 0);
  }

  // ----- exactly when nothing is lost -----

  /** No request of the shape of r loses anything to skipped pixels, in any chunk of its band. */
  ghost predicate NeverLoses(r: Request)
    requires r.Valid()
  {
    forall q, first, past, ou, ov :: SameShape(r, q) ==> Keeps(q, first, past, ou, ov)
  }

  ghost predicate Keeps(q: Request, first: int, past: int, ou: int, ov: int)
    requires q.Valid()
  {
    ChunkOf(q, first, past) && first <= ov < past && 0 <= ou < q.outputWidth
    ==> BandInk(q, first, past, ou, ov) == NaiveInk(q, ou, ov)
  }

  /** The loops lose nothing, whatever the shift, the frame, the band and its chunks, exactly when the margin fits. */
  lemma NeverLosesIffFits(r: Request)
    requires r.Valid() && r.forward.IsAffine()
    ensures NeverLoses(r) <==> Fits(r)
  {
    hide Request.Valid, Fits, BandInk, NaiveInk, Rise, Reach, Request.Margin;
    if Fits(r) {
      forall q, first, past, ou, ov | SameShape(r, q)
        ensures Keeps(q, first, past, ou, ov)
      {
        SameFit(r, q);
        FittingIsGentle(q);
        if ChunkOf(q, first, past) && first <= ov < past && 0 <= ou < q.outputWidth {
          GentleBandIsWhole(q, first, past, ou, ov);
        }
      }
    } else {
      var q := SomeLost(r);
      assert !Keeps(q, 0, 1, 0, 0);
    }
  }

  lemma SameFit(r: Request, q: Request)
    requires r.Valid() && r.forward.IsAffine() && SameShape(r, q)
    ensures q.Valid() && (Fits(q) <==> Fits(r)) && (Covered(q) <==> Covered(r))
  {
    hide Request.Valid, Request.Margin, Reach, Rise;
    SameMargin(r, q);
  }

  lemma SomeLost(r: Request) returns (q: Request)
    requires r.Valid() && r.forward.IsAffine() && !Fits(r)
    ensures SameShape(r, q) && q.outputRow0 == 0 && q.outputRows == 1 && q.outputWidth == 1
    ensures BandInk(q, 0, 1, 0, 0) == NOTHING && NaiveInk(q, 0, 0).weight > 0.0
  {
    hide Request.Valid, Request.Margin, Reach, Rise, BandInk, NaiveInk, SameShape, Request.DropInk;
    if r.kernel != Square {
      OthersFit(r);
    }
    if Reach(r, true) > r.Margin() {
      q := UncoveredLost(r);
    } else {
      q := UprightLost(r);
    }
  }

  /** No request of the shape of r has a pixel that fails the centre test but leaves something on the chunk. */
  ghost predicate CentreTestIsExact(r: Request)
    requires r.Valid()
  {
    forall q, x, y, first, past :: SameShape(r, q) && q.Inside(x, y) ==> CentreTestHolds(q, x, y, first, past)
  }

  ghost predicate CentreTestHolds(q: Request, x: int, y: int, first: int, past: int)
    requires q.Valid() && q.Inside(x, y)
  {
    !CentreInside(q, q.Centre(x, y), first, past) ==> Unreached(q, x, y, first, past)
  }

  /** The centre test alone is safe exactly when the margin covers the drop in both directions. */
  lemma CentreTestIffCovered(r: Request)
    requires r.Valid() && r.forward.IsAffine()
    ensures CentreTestIsExact(r) <==> Covered(r)
  {
    hide Request.Valid, Request.Centre, Request.Inside, Covered, CentreInside, Unreached;
    if Covered(r) {
      forall q, x, y, first, past | SameShape(r, q) && q.Inside(x, y)
        ensures CentreTestHolds(q, x, y, first, past)
      {
        SameFit(r, q);
        if !CentreInside(q, q.Centre(x, y), first, past) {
          CentreTestIsSafe(q, x, y, first, past);
        }
      }
    } else {
      if r.kernel != Square {
        OthersFit(r);
        FitsCovers(r);
      }
      var q := UncoveredLost(r);
      ReachedIsReached(r, q, 0);
      assert !CentreTestHolds(q, 0, 0, 0, 1);
    }
  }

  lemma ReachedIsReached(r: Request, q: Request, x: int)
    requires Reaches(r, q, x)
    ensures SameShape(r, q) && q.Inside(x, 0) && !Unreached(q, x, 0, 0, 1)
  {
    hide Request.Valid, Request.DropInk;
  }
}
