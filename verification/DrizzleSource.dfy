/**
 One drizzle request onto the reference grid (BandOnReference in native/src/DrizzleKernel.cpp): what every
 source pixel puts on every output pixel. The frame lies on one side of the forward map's horizon, so every
 mapped point is finite.
 */
module DrizzleSource {
  import opened Wrappers
  import opened PooledWindow
  import OffsetGrid
  import opened PolygonClip
  import opened ConvexClip
  import opened DrizzleDrop
  import opened HomographyMaps
  import opened Reals

  datatype Kernel = PointDrop | Square | Circular | Gaussian

  datatype NodeGrid = NodeGrid(values: seq<seq<real>>, xNodes: seq<real>, yNodes: seq<real>) {

    ghost predicate Valid() { OffsetGrid.Grid(values, xNodes, yNodes) }

    function At(p: Point): real
      requires Valid()
    {
      OffsetGrid.At(values, xNodes, yNodes, p.x, p.y)
    }
  }

  /** std::round: to the nearest integer, halves away from zero. */
  function Round(x: real): int {
    if x >= 0.0 then (x + 0.5).Floor else -((-x + 0.5).Floor)
  }

  /** The signed area of the parallelogram two steps from c span. */
  function StepArea(c: Point, cx: Point, cy: Point): real {
    (cx.x - c.x) * (cy.y - c.y) - (cy.x - c.x) * (cx.y - c.y)
  }

  /** What a source pixel carries: the weight per unit area and the normalized value. */
  datatype Sample = Sample(weight: real, value: real)

  /** Weighted values and weights deposited on one output pixel. */
  datatype Ink = Ink(sum: real, weight: real) {
    function Plus(other: Ink): Ink { Ink(sum + other.sum, weight + other.weight) }
  }

  const NOTHING := Ink(0.0, 0.0)

  /** The ink of a sample on an output pixel where its drop has this area. */
  function InkOf(sample: Sample, area: real): (ink: Ink)
    ensures sample.weight > 0.0 ==> ink.weight >= 0.0 && (ink.weight > 0.0 <==> area > 0.0)
  {
    InkSign(sample.weight, area);
    if area <= 0.0 then NOTHING else Ink(sample.weight * area * sample.value, sample.weight * area)
  }

  /** The pixels the circular and Gaussian loops visit: floor(c - reach + 1/2) to floor(c + reach + 1/2). */
  predicate InReach(c: real, reach: real, o: int) {
    (c - reach + 0.5).Floor <= o <= (c + reach + 0.5).Floor
  }

  /**
   The request. The square root, the exponential and the disc-in-square area are parameters: `exp` is applied
   to -(du^2 + dv^2)/(2 sigma^2), `disc(cx, cy, radius, ou, ov)` is the area of the disc inside pixel (ou, ov).
   */
  datatype Request = Request(
    source: seq<seq<Float>>, width: nat, row0: nat, forward: Homography, scale: nat, pixfrac: real, kernel: Kernel,
    gain: real, shift: real, offsets: Option<NodeGrid>, weights: Option<NodeGrid>,
    mask: Option<seq<seq<bool>>>, maskWidth: nat, channel: Option<nat>, pattern: seq<nat>, frameWeight: real,
    outputWidth: nat, outputRows: nat, outputRow0: nat,
    root: real -> real, exp: real -> real, disc: (real, real, real, int, int) -> real) {

    ghost predicate Valid() {
      && width > 0 && |source| > 0 && (forall j :: 0 <= j < |source| ==> |source[j]| == width)
      && 1 <= scale <= 8 && 0.0 < pixfrac <= 1.0 && forward.Det() != 0.0 && InFront()
      && (offsets.Some? ==> offsets.value.Valid()) && (weights.Some? ==> weights.value.Valid())
      && (mask.Some? ==>
            |mask.value| > 0 && maskWidth > 0 && forall j :: 0 <= j < |mask.value| ==> |mask.value[j]| == maskWidth)
      && |pattern| == 4 && frameWeight >= 0.0 && outputWidth > 0
      && IsRoot(root)
    }

    /** The frame and the pixels around it lie on one side of the map's horizon. */
    predicate InFront() {
      Sided(forward, -1.0, width as real, row0 as real - 1.0, (row0 + |source|) as real)
    }

    // ----- geometry -----

    function Half(): real { 0.5 * pixfrac }

    function Centre(x: int, y: int): Point
      requires Valid() && Inside(x, y)
    {
      InFrame(this, x as real, y as real);
      forward.Map(x as real, y as real)
    }

    /** The map's area factor at the frame centre, from one-pixel steps. */
    function Jacobian(): real
      requires Valid()
    {
      var x, y := 0.5 * (width as real - 1.0), row0 as real + 0.5 * (|source| as real - 1.0);
      InFrame(this, x, y);
      InFrame(this, x + 1.0, y);
      InFrame(this, x, y + 1.0);
      var c, cx, cy := forward.Map(x, y), forward.Map(x + 1.0, y), forward.Map(x, y + 1.0);
      Abs(StepArea(c, cx, cy))
    }

    function LocalScale(): real
      requires Valid()
    {
      root(if Jacobian() < 0.000000000001 then 0.000000000001 else Jacobian())
    }

    function DropRadius(): real
      requires Valid()
    {
      pixfrac * LocalScale() * 0.5
    }

    function Sigma(): real
      requires Valid()
    {
      pixfrac * LocalScale() / 2.3548200450309493
    }

    /** How far output rows and columns of a chunk are widened before source pixels are skipped. */
    function Margin(): real
      requires Valid()
    {
      if kernel == Gaussian then 3.0 * Sigma() + 1.0 else DropRadius() * 1.5 + 1.0
    }

    function Drop(x: int, y: int): seq<Point>
      requires Valid() && Inside(x, y)
    {
      DropOneSided(this, x, y);
      Quad(forward, x as real, y as real, Half())
    }

    // ----- what a source pixel carries -----

    predicate Inside(x: int, y: int) { 0 <= x < width && row0 <= y < row0 + |source| }

    function SampleOf(x: int, y: int): (sample: Option<Sample>)
      requires Valid() && Inside(x, y)
      ensures sample.Some? ==> sample.value.weight > 0.0
    {
      var pixel := source[y - row0][x];
      if pixel.NonFinite? || (channel.Some? && pattern[y % 2 * 2 + x % 2] != channel.value) then None else
      var reference := Point(Centre(x, y).x / scale as real, Centre(x, y).y / scale as real);
      if mask.Some? && !Accepted(Round(reference.x), Round(reference.y)) then None else
      if WeightAt(reference) <= 0.0 then None
      else Some(Sample(WeightAt(reference), Normalized(pixel.value, reference)))
    }

    /** The pixel's weight at a reference point. */
    function WeightAt(p: Point): real
      requires Valid()
    {
      if weights.Some? then frameWeight * weights.value.At(p) else frameWeight
    }

    /** The normalized value of a sample at a reference point. */
    function Normalized(v: real, p: Point): real
      requires Valid()
    {
      v * gain + (if offsets.Some? then offsets.value.At(p) else 0.0) + shift
    }

    predicate Accepted(mx: int, my: int)
      requires Valid() && mask.Some?
    {
      0 <= mx < maskWidth && 0 <= my < |mask.value| && mask.value[my][mx]
    }

    // ----- the area of a drop on an output pixel -----

    function Bell(c: Point, ou: int, ov: int): real
      requires Valid()
    {
      SigmaPositive(this);
      exp(-((ou as real - c.x) * (ou as real - c.x)
          + (ov as real - c.y) * (ov as real - c.y)) / (2.0 * Sigma() * Sigma()))
    }

    function BellRow(c: Point, ou0: int, ou1: int, ov: int): real
      requires Valid()
      decreases ou1 - ou0
    {
      if ou1 <= ou0 then 0.0 else BellRow(c, ou0, ou1 - 1, ov) + Bell(c, ou1 - 1, ov)
    }

    function BellBox(c: Point, ou0: int, ou1: int, ov0: int, ov1: int): real
      requires Valid()
      decreases ov1 - ov0
    {
      if ov1 <= ov0 then 0.0 else BellBox(c, ou0, ou1, ov0, ov1 - 1) + BellRow(c, ou0, ou1, ov1 - 1)
    }

    /** The bell over all rows and the columns of the image that the drop reaches. */
    function BellTotal(c: Point): real
      requires Valid()
    {
      var reach := 3.0 * Sigma();
      var ou0, ou1 := (c.x - reach + 0.5).Floor, (c.x + reach + 0.5).Floor;
      BellBox(c, if ou0 < 0 then 0 else ou0, (if outputWidth - 1 < ou1 then outputWidth - 1 else ou1) + 1,
              (c.y - reach + 0.5).Floor, (c.y + reach + 0.5).Floor + 1)
    }

    function AreaOn(x: int, y: int, ou: int, ov: int): real
      requires Valid() && Inside(x, y)
    {
      var c := Centre(x, y);
      match kernel
      case PointDrop => if ou == Round(c.x) && ov == Round(c.y) then 1.0 else 0.0
      case Square => Overlap(Drop(x, y), ou, ov)
      case Circular =>
        if InReach(c.x, DropRadius(), ou) && InReach(c.y, DropRadius(), ov)
        then disc(c.x, c.y, DropRadius(), ou, ov) else 0.0
      case Gaussian =>
        if InReach(c.x, 3.0 * Sigma(), ou) && InReach(c.y, 3.0 * Sigma(), ov) && BellTotal(c) > 0.0
        then pixfrac * pixfrac * Jacobian() * Bell(c, ou, ov) / BellTotal(c) else 0.0
    }

    function DropInk(x: int, y: int, ou: int, ov: int): (ink: Ink)
      requires Valid() && Inside(x, y)
      ensures ink.weight >= 0.0
    {
      match SampleOf(x, y)
      case None => NOTHING
      case Some(s) => InkOf(s, AreaOn(x, y, ou, ov))
    }

    // ----- the sum over all sources -----

    /** The first n pixels of source row y. */
    function RowInk(y: int, n: nat, ou: int, ov: int): (ink: Ink)
      requires Valid() && row0 <= y < row0 + |source| && n <= width
      ensures ink.weight >= 0.0
    {
      if n == 0 then NOTHING else RowInk(y, n - 1, ou, ov).Plus(DropInk(n - 1, y, ou, ov))
    }

    /** The source rows before row y. */
    function AllInk(y: int, ou: int, ov: int): (ink: Ink)
      requires Valid() && row0 <= y <= row0 + |source|
      ensures ink.weight >= 0.0
      decreases y
    {
      if y == row0 then NOTHING else AllInk(y - 1, ou, ov).Plus(RowInk(y - 1, width, ou, ov))
    }
  }

  lemma InkSign(weight: real, area: real)
    ensures weight > 0.0 && area > 0.0 ==> weight * area > 0.0
  {}

  lemma InFrame(r: Request, x: real, y: real)
    requires r.Valid() && -1.0 <= x <= r.width as real && r.row0 as real - 1.0 <= y <= (r.row0 + |r.source|) as real
    ensures r.forward.W(x, y) != 0.0 && (r.forward.W(x, y) > 0.0 <==> r.forward.W(-1.0, r.row0 as real - 1.0) > 0.0)
  {
    SidedInside(r.forward, -1.0, r.width as real, r.row0 as real - 1.0, (r.row0 + |r.source|) as real, x, y);
  }

  lemma DropOneSided(r: Request, x: int, y: int)
    requires r.Valid() && r.Inside(x, y)
    ensures OneSided(r.forward, x as real, y as real, r.Half()) && 0.0 < r.Half() <= 0.5
  {
    var half := r.Half();
    assert 0.0 < half <= 0.5;
    InFrame(r, x as real - half, y as real - half);
    InFrame(r, x as real + half, y as real - half);
    InFrame(r, x as real + half, y as real + half);
    InFrame(r, x as real - half, y as real + half);
    hide Request.Valid, Homography.W;
  }

  ghost function Orientation(r: Request, x: int, y: int): bool {
    (r.forward.Det() > 0.0) == (r.forward.W(x as real - r.Half(), y as real - r.Half()) > 0.0)
  }

  lemma StrictDrop(r: Request, x: int, y: int)
    requires r.Valid() && r.Inside(x, y)
    ensures StrictQuad(Orientation(r, x, y), r.Drop(x, y))
  {
    DropOneSided(r, x, y);
    QuadIsStrict(r.forward, x as real, y as real, r.Half());
  }

  lemma ScaleIs(r: Request, j: real)
    requires r.Valid() && j == r.Jacobian()
    ensures r.LocalScale() == r.root(if j < 0.000000000001 then 0.000000000001 else j)
  {
    hide Request.Valid, Request.Jacobian;
  }

  lemma MarginIs(r: Request, s: real, p: real)
    requires r.Valid() && s == r.LocalScale() && p == r.pixfrac
    ensures r.DropRadius() == p * s * 0.5 && r.Sigma() == p * s / 2.3548200450309493
    ensures r.Margin() == if r.kernel == Gaussian then 3.0 * r.Sigma() + 1.0 else r.DropRadius() * 1.5 + 1.0
  {
    hide Request.Valid, Request.LocalScale;
  }

  lemma ScalePositive(r: Request)
    requires r.Valid()
    ensures r.LocalScale() > 0.0 && r.DropRadius() > 0.0
  {
    hide Request.Jacobian, Request.InFront;
    var j := if r.Jacobian() < 0.000000000001 then 0.000000000001 else r.Jacobian();
    var s := r.LocalScale();
    assert IsRoot(r.root) && s == r.root(j);
    assert s >= 0.0 && s * s == j;
    RootPositive(s, j);
    InkSign(r.pixfrac, s);
  }

  lemma RootPositive(s: real, j: real)
    requires s >= 0.0 && s * s == j && j > 0.0
    ensures s > 0.0
  {
    assert s == 0.0 ==> s * s == 0.0;
  }

  lemma SigmaPositive(r: Request)
    requires r.Valid()
    ensures r.Sigma() > 0.0 && 2.0 * r.Sigma() * r.Sigma() != 0.0
  {
    ScalePositive(r);
    InkSign(r.Sigma(), r.Sigma());
  }
}
