/**
 What the accumulators of BandOnReference (native/src/DrizzleKernel.cpp) are worth: every cell is a weighted mean of
 normalized pixel values, and a band that covers the square drops holds all their weight and all their flux.
 */
module DrizzleMean {
  import opened Wrappers
  import PolygonClip
  import opened ConvexClip
  import opened DrizzleDrop
  import opened DrizzleSource
  import opened DrizzleReach
  import opened DrizzleBand
  import opened Reals

  // ----- every cell is a weighted mean -----

  /** The sum lies between the bounds times the weight. */
  predicate Mean(sum: real, weight: real, low: real, high: real) {
    low * weight <= sum <= high * weight
  }

  /** Every counted pixel has its normalized value between the bounds. */
  ghost predicate ValuesIn(r: Request, low: real, high: real)
    requires r.Valid()
  {
    forall x, y :: r.Inside(x, y) && r.SampleOf(x, y).Some? ==> low <= r.SampleOf(x, y).value.value <= high
  }

  lemma MeanOfProduct(w: real, v: real, low: real, high: real)
    requires w >= 0.0 && low <= v <= high
    ensures Mean(w * v, w, low, high)
  {
    Times(w, v - low);
    Times(w, high - v);
    assert w * (v - low) == w * v - low * w && w * (high - v) == high * w - w * v;
  }

  lemma MeanPlus(a: real, u: real, b: real, v: real, low: real, high: real)
    requires Mean(a, u, low, high) && Mean(b, v, low, high)
    ensures Mean(a + b, u + v, low, high)
  {
    assert low * (u + v) == low * u + low * v && high * (u + v) == high * u + high * v;
  }

  predicate InkMean(ink: Ink, low: real, high: real) { Mean(ink.sum, ink.weight, low, high) }

  lemma InkMeanPlus(a: Ink, b: Ink, low: real, high: real)
    requires InkMean(a, low, high) && InkMean(b, low, high)
    ensures InkMean(a.Plus(b), low, high)
  {
    hide Mean;
    MeanPlus(a.sum, a.weight, b.sum, b.weight, low, high);
  }

  lemma InkMeanNothing(low: real, high: real)
    ensures InkMean(NOTHING, low, high)
  {}

  lemma DropMean(r: Request, x: int, y: int, ou: int, ov: int, low: real, high: real)
    requires r.Valid() && r.Inside(x, y) && ValuesIn(r, low, high)
    ensures InkMean(r.DropInk(x, y, ou, ov), low, high)
  {
    hide Request.Valid, Request.AreaOn, Request.SampleOf, InkMean, InkOf;
    InkMeanNothing(low, high);
    if r.SampleOf(x, y).Some? {
      SampleMean(r.SampleOf(x, y).value, r.AreaOn(x, y, ou, ov), low, high);
    }
  }

  lemma SampleMean(s: Sample, area: real, low: real, high: real)
    requires s.weight > 0.0 && low <= s.value <= high
    ensures InkMean(InkOf(s, area), low, high)
  {
    if area > 0.0 {
      var w := s.weight * area;
      InkSign(s.weight, area);
      MeanOfProduct(w, s.value, low, high);
    }
  }

  lemma PixelMean(r: Request, x: int, y: int, first: int, past: int, ou: int, ov: int, low: real, high: real)
    requires r.Valid() && r.Inside(x, y) && ValuesIn(r, low, high)
    ensures InkMean(PixelInk(r, x, y, first, past, ou, ov), low, high)
  {
    hide Request.Valid, ValuesIn, Visited, Request.DropInk, InkMean;
    InkMeanNothing(low, high);
    DropMean(r, x, y, ou, ov, low, high);
  }

  lemma {:induction false} RowMean(r: Request, y: int, n: nat, first: int, past: int, ou: int, ov: int, low: real,
                                   high: real)
    requires r.Valid() && r.row0 <= y < r.row0 + |r.source| && n <= r.width && ValuesIn(r, low, high)
    ensures InkMean(RowsInk(r, y, n, first, past, ou, ov), low, high)
  {
    hide *;
    if n > 0 {
      RowMean(r, y, n - 1, first, past, ou, ov, low, high);
      RowStep(r, y, n, first, past, ou, ov);
      PixelMean(r, n - 1, y, first, past, ou, ov, low, high);
      InkMeanPlus(RowsInk(r, y, n - 1, first, past, ou, ov), PixelInk(r, n - 1, y, first, past, ou, ov), low, high);
    } else {
      EmptySum(r, y, first, past, ou, ov);
      InkMeanNothing(low, high);
    }
  }

  lemma {:induction false} ChunkMean(r: Request, y: int, first: int, past: int, ou: int, ov: int, low: real, high: real)
    requires r.Valid() && r.row0 <= y <= r.row0 + |r.source| && ValuesIn(r, low, high)
    ensures InkMean(ChunkInk(r, y, first, past, ou, ov), low, high)
    decreases y
  {
    hide *;
    if y > r.row0 {
      ChunkMean(r, y - 1, first, past, ou, ov, low, high);
      AllStep(r, y, first, past, ou, ov);
      RowMean(r, y - 1, r.width, first, past, ou, ov, low, high);
      InkMeanPlus(ChunkInk(r, y - 1, first, past, ou, ov), RowsInk(r, y - 1, r.width, first, past, ou, ov), low, high);
    } else {
      NoRowsYet(r, first, past, ou, ov);
      InkMeanNothing(low, high);
    }
  }

  /**
   Whatever a frame adds to a cell whose mean lies between bounds, an empty one included, leaves the mean between them
   if the frame's normalized values lie between them; so a constant frame gives its constant, whatever the weights.
   */
  lemma CellMean(r: Request, grain: nat, k: nat, u: nat, before: Cell, low: real, high: real)
    requires r.Valid() && grain > 0 && k < r.outputRows && u < r.outputWidth && ValuesIn(r, low, high)
    requires Mean(before.sum, before.weight, low, high)
    ensures var after := before.Add(CellInk(r, grain, k, u));
      after.weight >= before.weight && Mean(after.sum, after.weight, low, high)
  {
    var ink := CellInk(r, grain, k, u);
    hide *;
    var first, past := r.outputRow0 + ChunkBegin(k, grain), r.outputRow0 + ChunkEnd(r, k, grain);
    CellInkIs(r, grain, k, u);
    ChunkMean(r, r.row0 + |r.source|, first, past, u, r.outputRow0 + k, low, high);
    AddedMean(before, ink, low, high);
  }

  lemma CellInkIs(r: Request, grain: nat, k: nat, u: nat)
    requires r.Valid() && grain > 0 && k < r.outputRows && u < r.outputWidth
    ensures r.row0 <= r.row0 + |r.source| && CellInk(r, grain, k, u)
      == ChunkInk(r, r.row0 + |r.source|, r.outputRow0 + ChunkBegin(k, grain), r.outputRow0 + ChunkEnd(r, k, grain), u,
                  r.outputRow0 + k)
    ensures CellInk(r, grain, k, u).weight >= 0.0
  {
    hide Request.Valid, ChunkInk, ChunkBegin, ChunkEnd;
  }

  lemma AddedMean(before: Cell, ink: Ink, low: real, high: real)
    requires Mean(before.sum, before.weight, low, high) && InkMean(ink, low, high) && ink.weight >= 0.0
    ensures var after := before.Add(ink); after.weight >= before.weight && Mean(after.sum, after.weight, low, high)
  {
    hide Mean;
    MeanPlus(before.sum, before.weight, ink.sum, ink.weight, low, high);
  }

  // ----- a covering band holds everything -----

  /** One source pixel, the first n of a row, or the rows before row y. */
  datatype Part = Pixel(x: int, y: int) | Row(y: int, n: nat) | Rows(y: int) {

    predicate Of(r: Request) {
      match this
      case Pixel(x, y) => r.Inside(x, y)
      case Row(y, n) => r.row0 <= y < r.row0 + |r.source| && n <= r.width
      case Rows(y) => r.row0 <= y <= r.row0 + |r.source|
    }
  }

  /** What a part of the frame leaves on an output pixel. */
  function InkAt(r: Request, p: Part, ou: int, ov: int): Ink
    requires r.Valid() && p.Of(r)
  {
    match p
    case Pixel(x, y) => r.DropInk(x, y, ou, ov)
    case Row(y, n) => r.RowInk(y, n, ou, ov)
    case Rows(y) => r.AllInk(y, ou, ov)
  }

  /** On the first m pixels of output row ov. */
  function Across(r: Request, p: Part, m: nat, ov: int): Ink
    requires r.Valid() && p.Of(r)
  {
    if m == 0 then NOTHING else Across(r, p, m - 1, ov).Plus(InkAt(r, p, m - 1, ov))
  }

  /** On the first k rows of the band. */
  function OnBand(r: Request, p: Part, k: nat): Ink
    requires r.Valid() && p.Of(r)
  {
    if k == 0 then NOTHING else OnBand(r, p, k - 1).Plus(Across(r, p, r.outputWidth, r.outputRow0 + k - 1))
  }

  predicate Adds(r: Request, whole: Part, a: Part, b: Part)
    requires r.Valid()
  {
    whole.Of(r) && a.Of(r) && b.Of(r)
  }

  ghost predicate Splits(r: Request, whole: Part, a: Part, b: Part)
    requires r.Valid() && Adds(r, whole, a, b)
  {
    forall u, v :: InkAt(r, whole, u, v) == InkAt(r, a, u, v).Plus(InkAt(r, b, u, v))
  }

  lemma {:induction false} AcrossSplits(r: Request, whole: Part, a: Part, b: Part, m: nat, ov: int)
    requires r.Valid() && Adds(r, whole, a, b) && Splits(r, whole, a, b)
    ensures Across(r, whole, m, ov) == Across(r, a, m, ov).Plus(Across(r, b, m, ov))
  {
    hide Request.Valid, InkAt;
    if m > 0 {
      AcrossSplits(r, whole, a, b, m - 1, ov);
      assert InkAt(r, whole, m - 1, ov) == InkAt(r, a, m - 1, ov).Plus(InkAt(r, b, m - 1, ov));
    }
  }

  lemma {:induction false} BandSplits(r: Request, whole: Part, a: Part, b: Part, k: nat)
    requires r.Valid() && Adds(r, whole, a, b) && Splits(r, whole, a, b)
    ensures OnBand(r, whole, k) == OnBand(r, a, k).Plus(OnBand(r, b, k))
  {
    hide Request.Valid, InkAt, Splits, Across;
    if k > 0 {
      BandSplits(r, whole, a, b, k - 1);
      AcrossSplits(r, whole, a, b, r.outputWidth, r.outputRow0 + k - 1);
    }
  }

  // ----- one drop on the band -----

  /** The flux and the weight of one pixel: its drop's mapped area times its weight, and that times its value. */
  function PixelFlux(r: Request, x: int, y: int): Ink
    requires r.Valid() && r.Inside(x, y)
  {
    match r.SampleOf(x, y)
    case None => NOTHING
    case Some(s) =>
      var weight := s.weight * Area(r.Drop(x, y));
      Ink(weight * s.value, weight)
  }

  /** The drop lies inside the band's pixels. */
  ghost predicate OnPixels(r: Request, x: int, y: int)
    requires r.Valid() && r.Inside(x, y)
  {
    && Bounded(true, -0.5, r.outputWidth as real - 0.5, r.Drop(x, y))
    && Bounded(false, r.outputRow0 as real - 0.5, (r.outputRow0 + r.outputRows) as real - 0.5, r.Drop(x, y))
  }

  /** Weight times area, and that times the value. */
  predicate Flux(ink: Ink, weight: real, value: real, area: real) {
    ink.weight == weight * area && ink.sum == value * (weight * area)
  }

  lemma FluxPlus(a: Ink, b: Ink, weight: real, value: real, area: real, more: real)
    requires Flux(a, weight, value, area) && Flux(b, weight, value, more)
    ensures Flux(a.Plus(b), weight, value, area + more)
  {
    var p, q := weight * area, weight * more;
    assert weight * (area + more) == p + q;
    assert value * (p + q) == value * p + value * q;
  }

  lemma FluxNothing(weight: real, value: real)
    ensures Flux(NOTHING, weight, value, 0.0)
  {}

  lemma FluxOfInk(s: Sample, area: real)
    requires s.weight > 0.0 && area >= 0.0
    ensures Flux(InkOf(s, area), s.weight, s.value, area)
  {
    var w := s.weight * area;
    if area > 0.0 {
      InkSign(s.weight, area);
      assert w * s.value == s.value * w;
    } else {
      assert w == 0.0;
    }
  }

  lemma PixelInkIs(r: Request, x: int, y: int, ou: int, ov: int)
    requires r.Valid() && r.Inside(x, y) && r.kernel == Square
    ensures InkAt(r, Pixel(x, y), ou, ov) == match r.SampleOf(x, y)
      case None => NOTHING
      case Some(s) => InkOf(s, Overlap(r.Drop(x, y), ou, ov))
  {
    hide Request.Valid, Request.SampleOf, InkOf, Overlap, Request.Drop;
  }

  lemma OverlapPositive(polygon: seq<PolygonClip.Point>, px: int, py: int)
    ensures Overlap(polygon, px, py) >= 0.0
  {
    hide SignedOverlap;
  }

  lemma {:induction false} AcrossFlux(r: Request, x: int, y: int, s: Sample, m: nat, ov: int)
    requires r.Valid() && r.Inside(x, y) && r.kernel == Square && r.SampleOf(x, y) == Some(s)
    ensures Flux(Across(r, Pixel(x, y), m, ov), s.weight, s.value, RowOverlaps(r.Drop(x, y), 0, m, ov))
  {
    hide Request.Valid, Request.SampleOf, InkOf, Overlap, Request.Drop, InkAt, Flux;
    if m > 0 {
      AcrossFlux(r, x, y, s, m - 1, ov);
      PixelInkIs(r, x, y, m - 1, ov);
      OverlapPositive(r.Drop(x, y), m - 1, ov);
      FluxOfInk(s, Overlap(r.Drop(x, y), m - 1, ov));
      FluxPlus(Across(r, Pixel(x, y), m - 1, ov), InkAt(r, Pixel(x, y), m - 1, ov), s.weight, s.value,
               RowOverlaps(r.Drop(x, y), 0, m - 1, ov), Overlap(r.Drop(x, y), m - 1, ov));
    } else {
      FluxNothing(s.weight, s.value);
    }
  }

  lemma {:induction false} BandFlux(r: Request, x: int, y: int, s: Sample, k: nat)
    requires r.Valid() && r.Inside(x, y) && r.kernel == Square && r.SampleOf(x, y) == Some(s)
    ensures Flux(OnBand(r, Pixel(x, y), k), s.weight, s.value,
                 GridOverlaps(r.Drop(x, y), 0, r.outputWidth, r.outputRow0, k))
  {
    hide Request.Valid, Request.SampleOf, Request.Drop, Flux, Across, RowOverlaps;
    if k > 0 {
      BandFlux(r, x, y, s, k - 1);
      AcrossFlux(r, x, y, s, r.outputWidth, r.outputRow0 + k - 1);
      FluxPlus(OnBand(r, Pixel(x, y), k - 1), Across(r, Pixel(x, y), r.outputWidth, r.outputRow0 + k - 1), s.weight,
               s.value, GridOverlaps(r.Drop(x, y), 0, r.outputWidth, r.outputRow0, k - 1),
               RowOverlaps(r.Drop(x, y), 0, r.outputWidth, r.outputRow0 + k - 1));
    } else {
      FluxNothing(s.weight, s.value);
    }
  }

  lemma {:induction false} AcrossUncounted(r: Request, x: int, y: int, m: nat, ov: int)
    requires r.Valid() && r.Inside(x, y) && r.SampleOf(x, y) == None
    ensures Across(r, Pixel(x, y), m, ov) == NOTHING
  {
    hide Request.Valid, Request.SampleOf, Request.AreaOn;
    if m > 0 {
      AcrossUncounted(r, x, y, m - 1, ov);
    }
  }

  lemma {:induction false} BandUncounted(r: Request, x: int, y: int, k: nat)
    requires r.Valid() && r.Inside(x, y) && r.SampleOf(x, y) == None
    ensures OnBand(r, Pixel(x, y), k) == NOTHING
  {
    hide Request.Valid, Request.SampleOf, Across;
    if k > 0 {
      BandUncounted(r, x, y, k - 1);
      AcrossUncounted(r, x, y, r.outputWidth, r.outputRow0 + k - 1);
    }
  }

  lemma DropCovered(r: Request, x: int, y: int)
    requires r.Valid() && r.Inside(x, y) && OnPixels(r, x, y)
    ensures GridOverlaps(r.Drop(x, y), 0, r.outputWidth, r.outputRow0, r.outputRows) == Area(r.Drop(x, y))
  {
    hide Request.Valid, Request.Drop, Area, Orientation, GridOverlaps, StrictQuad, Convex, Bounded;
    StrictDrop(r, x, y);
    QuadShaped(Orientation(r, x, y), r.Drop(x, y));
    DropConservation(Orientation(r, x, y), r.Drop(x, y), 0, r.outputWidth, r.outputRow0, r.outputRows);
  }

  lemma PixelFluxIs(r: Request, x: int, y: int)
    requires r.Valid() && r.Inside(x, y)
    ensures PixelFlux(r, x, y) == match r.SampleOf(x, y)
      case None => NOTHING
      case Some(s) => Ink(s.weight * Area(r.Drop(x, y)) * s.value, s.weight * Area(r.Drop(x, y)))
  {
    hide Request.Valid, Request.Drop, Area, Request.SampleOf;
  }

  /** A square drop inside the band leaves on it exactly its flux and its weight. */
  lemma PixelConserved(r: Request, x: int, y: int)
    requires r.Valid() && r.Inside(x, y) && r.kernel == Square
    requires r.SampleOf(x, y).Some? ==> OnPixels(r, x, y)
    ensures OnBand(r, Pixel(x, y), r.outputRows) == PixelFlux(r, x, y)
  {
    hide Request.Valid, Request.SampleOf, Request.Drop, OnBand, Area, OnPixels, PixelFlux, Flux, GridOverlaps,
         Request.Inside;
    if r.SampleOf(x, y).Some? {
      var s := r.SampleOf(x, y).value;
      BandFlux(r, x, y, s, r.outputRows);
      DropCovered(r, x, y);
      FluxIs(OnBand(r, Pixel(x, y), r.outputRows), s.weight, s.value, Area(r.Drop(x, y)));
      PixelFluxIs(r, x, y);
    } else {
      BandUncounted(r, x, y, r.outputRows);
      PixelFluxIs(r, x, y);
    }
  }

  lemma FluxIs(ink: Ink, weight: real, value: real, area: real)
    requires Flux(ink, weight, value, area)
    ensures ink == Ink(weight * area * value, weight * area)
  {
    var w := weight * area;
    assert value * w == w * value;
  }

  // ----- the whole frame on the band -----

  /** Flux and weight of the first n pixels of a row, and of the rows before row y. */
  function RowFlux(r: Request, y: int, n: nat): Ink
    requires r.Valid() && r.row0 <= y < r.row0 + |r.source| && n <= r.width
  {
    if n == 0 then NOTHING else RowFlux(r, y, n - 1).Plus(PixelFlux(r, n - 1, y))
  }

  function FrameFlux(r: Request, y: int): Ink
    requires r.Valid() && r.row0 <= y <= r.row0 + |r.source|
    decreases y
  {
    if y == r.row0 then NOTHING else FrameFlux(r, y - 1).Plus(RowFlux(r, y - 1, r.width))
  }

  /** Every counted drop lies inside the band. */
  ghost predicate Covers(r: Request)
    requires r.Valid()
  {
    forall x, y :: r.Inside(x, y) && r.SampleOf(x, y).Some? ==> OnPixels(r, x, y)
  }

  lemma {:induction false} EmptyAcross(r: Request, p: Part, m: nat, ov: int)
    requires r.Valid() && p.Of(r) && forall u, v :: InkAt(r, p, u, v) == NOTHING
    ensures Across(r, p, m, ov) == NOTHING
  {
    hide Request.Valid, InkAt;
    if m > 0 {
      EmptyAcross(r, p, m - 1, ov);
      assert InkAt(r, p, m - 1, ov) == NOTHING;
    }
  }

  lemma {:induction false} EmptyBand(r: Request, p: Part, k: nat)
    requires r.Valid() && p.Of(r) && forall u, v :: InkAt(r, p, u, v) == NOTHING
    ensures OnBand(r, p, k) == NOTHING
  {
    hide Request.Valid, InkAt, Across;
    if k > 0 {
      EmptyBand(r, p, k - 1);
      EmptyAcross(r, p, r.outputWidth, r.outputRow0 + k - 1);
    }
  }

  lemma RowParts(r: Request, y: int, n: nat)
    requires r.Valid() && r.row0 <= y < r.row0 + |r.source| && n <= r.width
    ensures n > 0 ==>
        Adds(r, Row(y, n), Row(y, n - 1), Pixel(n - 1, y)) && Splits(r, Row(y, n), Row(y, n - 1), Pixel(n - 1, y))
    ensures n == 0 ==> forall u, v :: InkAt(r, Row(y, n), u, v) == NOTHING
  {
    hide Request.Valid, Request.DropInk;
  }

  lemma FrameParts(r: Request, y: int)
    requires r.Valid() && r.row0 <= y <= r.row0 + |r.source|
    ensures y > r.row0 ==>
        Adds(r, Rows(y), Rows(y - 1), Row(y - 1, r.width)) && Splits(r, Rows(y), Rows(y - 1), Row(y - 1, r.width))
    ensures y == r.row0 ==> forall u, v :: InkAt(r, Rows(y), u, v) == NOTHING
  {
    hide Request.Valid, Request.RowInk;
  }

  lemma {:induction false} RowConserved(r: Request, y: int, n: nat)
    requires r.Valid() && r.kernel == Square && Covers(r) && r.row0 <= y < r.row0 + |r.source| && n <= r.width
    ensures OnBand(r, Row(y, n), r.outputRows) == RowFlux(r, y, n)
  {
    RowParts(r, y, n);
    hide Request.Valid, Request.SampleOf, OnBand, PixelFlux, InkAt, Splits, OnPixels;
    if n > 0 {
      RowConserved(r, y, n - 1);
      BandSplits(r, Row(y, n), Row(y, n - 1), Pixel(n - 1, y), r.outputRows);
      PixelConserved(r, n - 1, y);
    } else {
      EmptyBand(r, Row(y, n), r.outputRows);
    }
  }

  lemma {:induction false} FrameConserved(r: Request, y: int)
    requires r.Valid() && r.kernel == Square && Covers(r) && r.row0 <= y <= r.row0 + |r.source|
    ensures OnBand(r, Rows(y), r.outputRows) == FrameFlux(r, y)
    decreases y
  {
    FrameParts(r, y);
    hide Request.Valid, OnBand, RowFlux, InkAt, Splits, Covers;
    if y > r.row0 {
      FrameConserved(r, y - 1);
      BandSplits(r, Rows(y), Rows(y - 1), Row(y - 1, r.width), r.outputRows);
      RowConserved(r, y - 1, r.width);
    } else {
      EmptyBand(r, Rows(y), r.outputRows);
    }
  }

  /** What the naive sum leaves on the first m cells of a row of the band, and on its first k rows. */
  function CellsAcross(r: Request, m: nat, ov: int): Ink
    requires r.Valid()
  {
    if m == 0 then NOTHING else CellsAcross(r, m - 1, ov).Plus(NaiveInk(r, m - 1, ov))
  }

  function CellsOfBand(r: Request, k: nat): Ink
    requires r.Valid()
  {
    if k == 0 then NOTHING else CellsOfBand(r, k - 1).Plus(CellsAcross(r, r.outputWidth, r.outputRow0 + k - 1))
  }

  lemma {:induction false} AcrossIs(r: Request, m: nat, ov: int)
    requires r.Valid()
    ensures Rows(r.row0 + |r.source|).Of(r) && CellsAcross(r, m, ov) == Across(r, Rows(r.row0 + |r.source|), m, ov)
  {
    hide Request.Valid, Request.AllInk;
    if m > 0 {
      AcrossIs(r, m - 1, ov);
    }
  }

  lemma {:induction false} BandIs(r: Request, k: nat)
    requires r.Valid()
    ensures Rows(r.row0 + |r.source|).Of(r) && CellsOfBand(r, k) == OnBand(r, Rows(r.row0 + |r.source|), k)
  {
    hide Request.Valid, Across, CellsAcross;
    if k > 0 {
      BandIs(r, k - 1);
      AcrossIs(r, r.outputWidth, r.outputRow0 + k - 1);
    }
  }

  /**
   The cells of a band that covers the counted square drops hold together the weight of every counted pixel times its
   mapped area, and the flux, that times its normalized value.
   */
  lemma BandConserved(r: Request)
    requires r.Valid() && r.kernel == Square && Covers(r)
    ensures CellsOfBand(r, r.outputRows) == FrameFlux(r, r.row0 + |r.source|)
  {
    hide Request.Valid, OnBand, FrameFlux, CellsOfBand, Covers;
    BandIs(r, r.outputRows);
    FrameConserved(r, r.row0 + |r.source|);
  }
}
