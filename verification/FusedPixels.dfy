/**
 The fused integration of native/src/FusedIntegration.cpp (RunCpuOracleFusedIntegration): every pixel is the
 weighted mean of its normalized samples, and frames with an identity normalization skip the splines.
 */
module FusedPixels {
  import opened PooledWindow
  import opened SplineGrid

  /** One frame of the tile: samples and rejection flags by pixel, its normalization grids and its weight. */
  datatype Frame = Frame(
    samples: seq<Float>, mask: seq<bool>, scaleGrid: seq<seq<real>>, offsetGrid: seq<seq<real>>, weight: real)

  datatype Request = Request(
    frames: seq<Frame>, pixels: nat, imageWidth: nat, imageHeight: nat, firstRow: nat, gridWidth: nat, gridHeight: nat,
    outputScale: real, outputOffset: real) {

    ghost predicate Valid() {
      && 0 < |frames| <= 65535 && imageWidth > 0 && 2 <= gridWidth <= imageWidth && 2 <= gridHeight <= imageHeight
      && (forall p :: 0 <= p < pixels ==> firstRow + p / imageWidth < imageHeight)
      && outputScale > 0.0
      && forall f :: 0 <= f < |frames| ==> ValidFrame(frames[f])
    }

    ghost predicate ValidFrame(f: Frame) {
      |f.samples| == pixels && |f.mask| == pixels && f.weight >= 0.0
      && Grid(f.scaleGrid, gridWidth, gridHeight) && Grid(f.offsetGrid, gridWidth, gridHeight)
    }

    /** The grid position of a pixel. */
    function GridX(pixel: nat): (x: real)
      requires Valid() && pixel < pixels
      ensures 0.0 <= x < gridWidth as real
    {
      Inside(gridWidth, pixel % imageWidth, imageWidth);
      gridWidth as real / imageWidth as real * (pixel % imageWidth) as real
    }

    function GridY(pixel: nat): (y: real)
      requires Valid() && pixel < pixels
      ensures 0.0 <= y < gridHeight as real
    {
      Inside(gridHeight, firstRow + pixel / imageWidth, imageHeight);
      gridHeight as real / imageHeight as real * (firstRow + pixel / imageWidth) as real
    }

    /** The normalized sample of an accepted frame, by the full evaluation of both grids. */
    function Normalized(f: Frame, pixel: nat): real
      requires Valid() && ValidFrame(f) && pixel < pixels && f.samples[pixel].Fin?
    {
      Sample(f.scaleGrid, gridWidth, gridHeight, GridX(pixel), GridY(pixel)) * f.samples[pixel].value
        + Sample(f.offsetGrid, gridWidth, gridHeight, GridX(pixel), GridY(pixel))
    }

    /** A frame counts at a pixel when it is not masked, its sample is finite and its weight is positive. */
    predicate Accepts(f: Frame, pixel: nat)
      requires |f.samples| == pixels && |f.mask| == pixels && pixel < pixels
    {
      !f.mask[pixel] && f.samples[pixel].Fin? && f.weight > 0.0
    }

    /** The sums over the first n frames. */
    function TallyOf(pixel: nat, n: nat): (t: Tally)
      requires Valid() && pixel < pixels && n <= |frames|
      ensures t.accepted + t.rejected == n && t.weightSum >= 0.0 && (t.weightSum > 0.0 <==> t.accepted > 0)
    {
      if n == 0 then Tally(0.0, 0.0, 0, 0)
      else
        var t, f := TallyOf(pixel, n - 1), frames[n - 1];
        if !Accepts(f, pixel) then t.(rejected := t.rejected + 1)
        else t.Add(f.weight, Normalized(f, pixel))
    }

    /** The integrated value of a pixel. */
    function Integrated(pixel: nat): real
      requires Valid() && pixel < pixels
    {
      Output(TallyOf(pixel, |frames|).weighted, TallyOf(pixel, |frames|).weightSum, outputScale, outputOffset)
    }
  }

  /** The weighted sum and the weight of the accepted samples, and both counts. */
  datatype Tally = Tally(weighted: real, weightSum: real, accepted: nat, rejected: nat) {
    function Add(weight: real, v: real): (t: Tally)
      ensures t.weightSum == weightSum + weight && t.accepted == accepted + 1 && t.rejected == rejected
    {
      Tally(weighted + weight * v, weightSum + weight, accepted + 1, rejected)
    }
  }

  function Output(weighted: real, weightSum: real, scale: real, offset: real): real {
    if weightSum > 0.0 then scale * (weighted / weightSum) + offset else 0.0
  }

  lemma Inside(grid: nat, position: nat, length: nat)
    requires position < length
    ensures 0.0 <= grid as real / length as real * position as real
    ensures grid > 0 ==> grid as real / length as real * position as real < grid as real
  {
    var q := grid as real / length as real;
    assert q * length as real == grid as real;
    assert q >= 0.0;
    assert q * position as real >= 0.0;
    assert q * (length - position) as real == grid as real - q * position as real;
    if grid > 0 {
      assert q > 0.0;
      assert q * (length - position) as real > 0.0;
    }
  }

  /** The four scale nodes are one and the four offset nodes are zero. */
  predicate Identity(f: Frame, gridWidth: nat, gridHeight: nat) {
    gridWidth == 2 && gridHeight == 2 && f.scaleGrid == [[1.0, 1.0], [1.0, 1.0]]
        && f.offsetGrid == [[0.0, 0.0], [0.0, 0.0]]
  }

  /** The identity shortcut is the full evaluation. */
  lemma IdentityShortcut(r: Request, f: Frame, pixel: nat)
    requires r.Valid() && r.ValidFrame(f) && pixel < r.pixels && f.samples[pixel].Fin?
      && Identity(f, r.gridWidth, r.gridHeight)
    ensures r.Normalized(f, pixel) == f.samples[pixel].value
  {
    hide Sample, Request.Valid, Request.GridX, Request.GridY;
    ConstantGrid(f.scaleGrid, r.gridWidth, r.gridHeight, r.GridX(pixel), r.GridY(pixel), 1.0);
    ConstantGrid(f.offsetGrid, r.gridWidth, r.gridHeight, r.GridX(pixel), r.GridY(pixel), 0.0);
  }

  /** The sums of accepted samples that lie between low and high. */
  lemma {:induction false} TallyInRange(r: Request, pixel: nat, n: nat, low: real, high: real)
    requires r.Valid() && pixel < r.pixels && n <= |r.frames|
    requires forall f :: 0 <= f < n && r.Accepts(r.frames[f], pixel) ==> low <= r.Normalized(r.frames[f], pixel) <= high
    ensures Mean(r.TallyOf(pixel, n).weighted, low, high, r.TallyOf(pixel, n).weightSum)
  {
    hide Request.Normalized, Request.Valid, Mean, Tally.Add;
    if n == 0 {
      NoMean(low, high);
    } else {
      TallyInRange(r, pixel, n - 1, low, high);
      var t, f := r.TallyOf(pixel, n - 1), r.frames[n - 1];
      FrameIsValid(r, n - 1);
      if r.Accepts(f, pixel) {
        AddedInRange(t, f.weight, r.Normalized(f, pixel), low, high);
      }
    }
  }

  lemma FrameIsValid(r: Request, f: nat)
    requires r.Valid() && f < |r.frames|
    ensures r.ValidFrame(r.frames[f])
  {}

  lemma AddedInRange(t: Tally, weight: real, v: real, low: real, high: real)
    requires Mean(t.weighted, low, high, t.weightSum) && weight > 0.0 && low <= v <= high
    ensures Mean(t.Add(weight, v).weighted, low, high, t.Add(weight, v).weightSum)
  {
    AddToMean(t.weighted, low, high, t.weightSum, v, weight, weight * v, t.weightSum + weight);
  }

  lemma Quotient(sum: real, w: real, low: real, high: real, q: real)
    requires Mean(sum, low, high, w) && w > 0.0 && q == sum / w
    ensures low <= q <= high
  {
    assert q * w == sum;
    Cancel(low, q, w);
    Cancel(q, high, w);
  }

  lemma Cancel(a: real, b: real, w: real)
    requires a * w <= b * w && w > 0.0
    ensures a <= b
  {}

  /** Without output scaling, the result lies between the accepted samples. */
  lemma IntegratedInRange(r: Request, pixel: nat, low: real, high: real)
    requires r.Valid() && pixel < r.pixels && r.outputScale == 1.0 && r.outputOffset == 0.0
      && r.TallyOf(pixel, |r.frames|).accepted > 0
    requires forall f :: 0 <= f < |r.frames| && r.Accepts(r.frames[f], pixel) ==>
      low <= r.Normalized(r.frames[f], pixel) <= high
    ensures low <= r.Integrated(pixel) <= high
  {
    TallyInRange(r, pixel, |r.frames|, low, high);
    var t := r.TallyOf(pixel, |r.frames|);
    hide Request.TallyOf, Request.Valid, Mean;
    Quotient(t.weighted, t.weightSum, low, high, t.weighted / t.weightSum);
  }

  /** RunCpuOracleFusedIntegration. */
  method RunFusedIntegration(r: Request, integrated: array<real>, accepted: array<nat>, rejected: array<nat>)
    requires r.Valid() && integrated.Length == r.pixels && accepted.Length == r.pixels && rejected.Length == r.pixels
      && accepted != rejected
    modifies integrated, accepted, rejected
    ensures forall p :: 0 <= p < r.pixels ==> integrated[p] == r.Integrated(p)
    ensures forall p :: 0 <= p < r.pixels ==>
      accepted[p] == r.TallyOf(p, |r.frames|).accepted && accepted[p] + rejected[p] == |r.frames|
  {
    hide Request.Valid, Request.TallyOf, Request.Integrated, Identity, Output;
    var identity := IdentityFlags(r);
    for pixel := 0 to r.pixels
      invariant forall p :: 0 <= p < pixel ==> integrated[p] == r.Integrated(p)
      invariant forall p :: 0 <= p < pixel ==>
        accepted[p] == r.TallyOf(p, |r.frames|).accepted && accepted[p] + rejected[p] == |r.frames|
    {
      var t := TallyPixel(r, pixel, identity);
      IntegratedIs(r, pixel, t);
      integrated[pixel] := Output(t.weighted, t.weightSum, r.outputScale, r.outputOffset);
      accepted[pixel] := t.accepted;
      rejected[pixel] := t.rejected;
    }
  }

  lemma IntegratedIs(r: Request, pixel: nat, t: Tally)
    requires r.Valid() && pixel < r.pixels && t == r.TallyOf(pixel, |r.frames|)
    ensures r.Integrated(pixel) == Output(t.weighted, t.weightSum, r.outputScale, r.outputOffset)
    ensures t.accepted + t.rejected == |r.frames|
  {
    hide Request.Valid, Output;
  }

  method IdentityFlags(r: Request) returns (flags: seq<bool>)
    requires r.Valid()
    ensures |flags| == |r.frames| && forall f :: 0 <= f < |flags| ==>
      flags[f] == Identity(r.frames[f], r.gridWidth, r.gridHeight)
  {
    flags := [];
    for frame := 0 to |r.frames|
      invariant |flags| == frame && forall f :: 0 <= f < frame ==>
        flags[f] == Identity(r.frames[f], r.gridWidth, r.gridHeight)
    {
      flags := flags + [Identity(r.frames[frame], r.gridWidth, r.gridHeight)];
    }
  }

  /** The frames of one pixel. */
  method TallyPixel(r: Request, pixel: nat, identity: seq<bool>) returns (t: Tally)
    requires r.Valid() && pixel < r.pixels && |identity| == |r.frames|
    requires forall f :: 0 <= f < |identity| ==> identity[f] == Identity(r.frames[f], r.gridWidth, r.gridHeight)
    ensures t == r.TallyOf(pixel, |r.frames|)
  {
    hide Sample, Identity, Tally.Add;
    var weighted, weightSum := 0.0, 0.0;
    var accepted: nat, rejected: nat := 0, 0;
    for frame := 0 to |r.frames|
      invariant Tally(weighted, weightSum, accepted, rejected) == r.TallyOf(pixel, frame)
    {
      var f := r.frames[frame];
      assert r.ValidFrame(f);
      if f.mask[pixel] || f.samples[pixel].NonFinite? || f.weight <= 0.0 {
        rejected := rejected + 1;
      } else {
        var normalized := NormalizedSample(r, f, pixel, identity[frame]);
        var t' := Tally(weighted, weightSum, accepted, rejected).Add(f.weight, normalized);
        weighted, weightSum, accepted := t'.weighted, t'.weightSum, t'.accepted;
      }
    }
    t := Tally(weighted, weightSum, accepted, rejected);
  }

  method NormalizedSample(r: Request, f: Frame, pixel: nat, identity: bool) returns (v: real)
    requires r.Valid() && r.ValidFrame(f) && pixel < r.pixels && f.samples[pixel].Fin?
      && identity == Identity(f, r.gridWidth, r.gridHeight)
    ensures v == r.Normalized(f, pixel)
  {
    hide Sample, Request.Valid, Request.GridX, Request.GridY;
    v := f.samples[pixel].value;
    if identity {
      IdentityShortcut(r, f, pixel);
    } else {
      var a := BicubicBSplineSample(f.scaleGrid, r.gridWidth, r.gridHeight, r.GridX(pixel), r.GridY(pixel));
      var b := BicubicBSplineSample(f.offsetGrid, r.gridWidth, r.gridHeight, r.GridX(pixel), r.GridY(pixel));
      v := a * v + b;
    }
  }
}
