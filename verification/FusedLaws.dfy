/**
 What an integrated pixel of native/src/FusedIntegration.cpp is: the weighted mean of the samples that count, with the
 output scale and offset applied to it, after either rejection.
 */
module FusedLaws {
  import opened Wrappers
  import Arithmetic
  import opened PooledWindow
  import opened Reals
  import FusedPixels
  import LinearFit
  import LinearFitPixels
  import SplineGrid

  // ----- positions and normalization -----

  /** A pixel's grid position divides the grid as the pixel divides the image, along either axis. */
  lemma GridPosition(r: FusedPixels.Request, pixel: nat, column: nat, row: nat)
    requires r.Valid() && pixel < r.pixels && column < r.imageWidth && pixel == row * r.imageWidth + column
    ensures r.GridX(pixel) * r.imageWidth as real == (r.gridWidth * column) as real
    ensures r.GridY(pixel) * r.imageHeight as real == (r.gridHeight * (r.firstRow + row)) as real
  {
    Arithmetic.PixelAt(pixel, r.imageWidth, row, column);
    SplitProduct(r.gridWidth, column);
    SplitProduct(r.gridHeight, r.firstRow + row);
    Share(r.gridWidth as real, r.imageWidth as real, column as real, r.GridX(pixel));
    Share(r.gridHeight as real, r.imageHeight as real, (r.firstRow + row) as real, r.GridY(pixel));
  }

  lemma SplitProduct(a: nat, b: nat)
    ensures (a * b) as real == a as real * b as real
  {}

  lemma Share(grid: real, length: real, place: real, x: real)
    requires length > 0.0 && x == grid / length * place
    ensures x * length == grid * place
  {
    var q := grid / length;
    assert q * length == grid;
    assert x * length == q * length * place;
  }

  /** The scale grid multiplies a sample and the offset grid is added to it. */
  lemma ConstantNormalization(r: FusedPixels.Request, f: FusedPixels.Frame, pixel: nat, a: real, b: real)
    requires r.Valid() && r.ValidFrame(f) && pixel < r.pixels && f.samples[pixel].Fin?
    requires forall j, i :: 0 <= j < r.gridHeight && 0 <= i < r.gridWidth ==> f.scaleGrid[j][i] == a
    requires forall j, i :: 0 <= j < r.gridHeight && 0 <= i < r.gridWidth ==> f.offsetGrid[j][i] == b
    ensures r.Normalized(f, pixel) == a * f.samples[pixel].value + b
  {
    hide SplineGrid.Sample, FusedPixels.Request.Valid, FusedPixels.Request.GridX, FusedPixels.Request.GridY;
    SplineGrid.ConstantGrid(f.scaleGrid, r.gridWidth, r.gridHeight, r.GridX(pixel), r.GridY(pixel), a);
    SplineGrid.ConstantGrid(f.offsetGrid, r.gridWidth, r.gridHeight, r.GridX(pixel), r.GridY(pixel), b);
  }

  // ----- weighted means -----

  /** The output is the scaled mean of a weighted sum, within the scaled bounds of the mean. */
  lemma OutputIs(weighted: real, weightSum: real, scale: real, offset: real, mean: real)
    requires weightSum > 0.0 && scale > 0.0
    requires FusedPixels.Output(weighted, weightSum, scale, offset) == scale * mean + offset
    ensures weighted == mean * weightSum
  {
    var q := weighted / weightSum;
    TimesQuotient(weighted, weightSum, q);
    SameMean(scale, q, mean);
  }

  lemma SameMean(scale: real, q: real, mean: real)
    requires scale > 0.0 && scale * q == scale * mean
    ensures q == mean
  {
    assert scale * (q - mean) == 0.0;
  }

  /** The mean that an output stands for. */
  function MeanOf(output: real, scale: real, offset: real): real
    requires scale > 0.0
  {
    (output - offset) / scale
  }

  lemma OutputOfMean(output: real, scale: real, offset: real, mean: real)
    requires scale > 0.0 && mean == MeanOf(output, scale, offset)
    ensures output == scale * mean + offset
  {
    TimesQuotient(output - offset, scale, mean);
  }

  /** The weighted distances from m of the first n frames that count. */
  function Distances(r: FusedPixels.Request, pixel: nat, m: real, n: nat): real
    requires r.Valid() && pixel < r.pixels && n <= |r.frames|
  {
    if n == 0 then 0.0
    else
      var f := r.frames[n - 1];
      FusedPixels.FrameIsValid(r, n - 1);
      Distances(r, pixel, m, n - 1)
        + if f.mask[pixel] || f.samples[pixel].NonFinite? || f.weight == 0.0 then 0.0
          else f.weight * (r.Normalized(f, pixel) - m)
  }

  /** How many of the first n frames count. */
  function Counting(r: FusedPixels.Request, pixel: nat, n: nat): nat
    requires r.Valid() && pixel < r.pixels && n <= |r.frames|
  {
    if n == 0 then 0
    else
      var f := r.frames[n - 1];
      FusedPixels.FrameIsValid(r, n - 1);
      Counting(r, pixel, n - 1) + if f.mask[pixel] || f.samples[pixel].NonFinite? || f.weight == 0.0 then 0 else 1
  }

  lemma {:induction false} TallyDistances(r: FusedPixels.Request, pixel: nat, m: real, n: nat)
    requires r.Valid() && pixel < r.pixels && n <= |r.frames|
    ensures var t := r.TallyOf(pixel, n); Distances(r, pixel, m, n) == t.weighted - m * t.weightSum
    ensures r.TallyOf(pixel, n).accepted == Counting(r, pixel, n)
  {
    hide FusedPixels.Request.Valid, FusedPixels.Request.Normalized, Distances, FusedPixels.Request.TallyOf, Counting;
    if n == 0 {
      NoTally(r, pixel, m);
    } else {
      TallyDistances(r, pixel, m, n - 1);
      FusedPixels.FrameIsValid(r, n - 1);
      var t, f := r.TallyOf(pixel, n - 1), r.frames[n - 1];
      NextTally(r, pixel, m, n);
      if r.Accepts(f, pixel) {
        MoreDistance(t.weighted, t.weightSum, f.weight, r.Normalized(f, pixel), m);
      }
    }
  }

  lemma NoTally(r: FusedPixels.Request, pixel: nat, m: real)
    requires r.Valid() && pixel < r.pixels
    ensures Distances(r, pixel, m, 0) == 0.0 && Counting(r, pixel, 0) == 0
    ensures r.TallyOf(pixel, 0) == FusedPixels.Tally(0.0, 0.0, 0, 0)
  {}

  lemma NextTally(r: FusedPixels.Request, pixel: nat, m: real, n: nat)
    requires r.Valid() && pixel < r.pixels && 0 < n <= |r.frames|
    ensures r.ValidFrame(r.frames[n - 1])
    ensures var t, f := r.TallyOf(pixel, n - 1), r.frames[n - 1];
        r.Accepts(f, pixel) ==>
          Distances(r, pixel, m, n) == Distances(r, pixel, m, n - 1) + f.weight * (r.Normalized(f, pixel) - m)
          && Counting(r, pixel, n) == Counting(r, pixel, n - 1) + 1
          && r.TallyOf(pixel, n) == t.Add(f.weight, r.Normalized(f, pixel))
    ensures var t, f := r.TallyOf(pixel, n - 1), r.frames[n - 1];
        !r.Accepts(f, pixel) ==>
          Distances(r, pixel, m, n) == Distances(r, pixel, m, n - 1)
          && Counting(r, pixel, n) == Counting(r, pixel, n - 1)
          && r.TallyOf(pixel, n) == t.(rejected := t.rejected + 1)
  {
    hide FusedPixels.Request.Valid, FusedPixels.Request.Normalized;
    FusedPixels.FrameIsValid(r, n - 1);
    WeightValid(r, n - 1);
  }

  lemma WeightValid(r: FusedPixels.Request, f: nat)
    requires r.Valid() && f < |r.frames|
    ensures r.frames[f].weight >= 0.0
  {}

  lemma MoreDistance(sum: real, weight: real, w: real, v: real, m: real)
    ensures sum - m * weight + w * (v - m) == sum + w * v - m * (weight + w)
  {}

  /**
   The integrated value stands for the mean about which the weighted distances of the counting frames cancel; where no
   frame counts it is zero.
   */
  lemma IntegratedIsMean(r: FusedPixels.Request, pixel: nat)
    requires r.Valid() && pixel < r.pixels
    ensures Counting(r, pixel, |r.frames|) > 0 ==>
      Distances(r, pixel, MeanOf(r.Integrated(pixel), r.outputScale, r.outputOffset), |r.frames|) == 0.0
    ensures Counting(r, pixel, |r.frames|) == 0 ==> r.Integrated(pixel) == 0.0
  {
    hide FusedPixels.Request.TallyOf, FusedPixels.Request.Valid, Distances, Counting, MeanOf;
    assert r.outputScale > 0.0 by { ScalePositive(r); }
    var m := MeanOf(r.Integrated(pixel), r.outputScale, r.outputOffset);
    TallyDistances(r, pixel, m, |r.frames|);
    var t := r.TallyOf(pixel, |r.frames|);
    if t.weightSum > 0.0 {
      OutputOfMean(r.Integrated(pixel), r.outputScale, r.outputOffset, m);
      OutputIs(t.weighted, t.weightSum, r.outputScale, r.outputOffset, m);
    }
  }

  lemma ScalePositive(r: FusedPixels.Request)
    requires r.Valid()
    ensures r.outputScale > 0.0
  {}

  /** The integrated value lies between the scaled and shifted bounds of the counting samples. */
  lemma IntegratedBounds(r: FusedPixels.Request, pixel: nat, low: real, high: real)
    requires r.Valid() && pixel < r.pixels && Counting(r, pixel, |r.frames|) > 0
    requires forall f :: 0 <= f < |r.frames| && r.Accepts(r.frames[f], pixel) ==>
      low <= r.Normalized(r.frames[f], pixel) <= high
    ensures r.outputScale * low + r.outputOffset <= r.Integrated(pixel) <= r.outputScale * high + r.outputOffset
  {
    hide FusedPixels.Request.TallyOf, FusedPixels.Request.Valid, SplineGrid.Mean, Counting, FusedPixels.Request.Accepts,
      FusedPixels.Request.Normalized, FusedPixels.Output, Distances, FusedPixels.Request.ValidFrame;
    ScalePositive(r);
    AllFramesValid(r);
    TallyDistances(r, pixel, 0.0, |r.frames|);
    FusedPixels.TallyInRange(r, pixel, |r.frames|, low, high);
    var t := r.TallyOf(pixel, |r.frames|);
    OutputBounds(t.weighted, t.weightSum, r.outputScale, r.outputOffset, low, high);
  }

  lemma AllFramesValid(r: FusedPixels.Request)
    requires r.Valid()
    ensures forall f :: 0 <= f < |r.frames| ==> r.ValidFrame(r.frames[f])
  {}

  lemma OutputBounds(weighted: real, weightSum: real, scale: real, offset: real, low: real, high: real)
    requires SplineGrid.Mean(weighted, low, high, weightSum) && weightSum > 0.0 && scale > 0.0
    ensures var out := FusedPixels.Output(weighted, weightSum, scale, offset);
        scale * low + offset <= out <= scale * high + offset
  {
    hide SplineGrid.Mean;
    var q := weighted / weightSum;
    FusedPixels.Quotient(weighted, weightSum, low, high, q);
    Times(scale, q - low);
    Times(scale, high - q);
    assert scale * (q - low) == scale * q - scale * low && scale * (high - q) == scale * high - scale * q;
  }

  // ----- after the linear-fit rejection -----

  /** The weighted distances from m of the first n survivors. */
  function SurvivorDistances(s: seq<LinearFit.Pair>, weights: seq<real>, m: real, n: nat): real
    requires n <= |s| && forall i :: 0 <= i < |s| ==> s[i].frame < |weights|
  {
    if n == 0 then 0.0
    else SurvivorDistances(s, weights, m, n - 1) + weights[s[n - 1].frame] * (s[n - 1].value - m)
  }

  lemma {:induction false} SumsOfDistances(s: seq<LinearFit.Pair>, weights: seq<real>, m: real, n: nat)
    requires n <= |s| && forall i :: 0 <= i < |s| ==> s[i].frame < |weights|
    ensures SurvivorDistances(s, weights, m, n)
      == LinearFitPixels.WeightedSum(s, weights, n) - m * LinearFitPixels.WeightSum(s, weights, n)
  {
    if n > 0 {
      SumsOfDistances(s, weights, m, n - 1);
      var w, v := weights[s[n - 1].frame], s[n - 1].value;
      SurvivorStep(s, weights, m, n, w, v);
      MoreDistance(LinearFitPixels.WeightedSum(s, weights, n - 1), LinearFitPixels.WeightSum(s, weights, n - 1), w, v,
          m);
    }
  }

  lemma SurvivorStep(s: seq<LinearFit.Pair>, weights: seq<real>, m: real, n: nat, w: real, v: real)
    requires 0 < n <= |s| && forall i :: 0 <= i < |s| ==> s[i].frame < |weights|
    requires w == weights[s[n - 1].frame] && v == s[n - 1].value
    ensures SurvivorDistances(s, weights, m, n) == SurvivorDistances(s, weights, m, n - 1) + w * (v - m)
    ensures LinearFitPixels.WeightedSum(s, weights, n) == LinearFitPixels.WeightedSum(s, weights, n - 1) + w * v
    ensures LinearFitPixels.WeightSum(s, weights, n) == LinearFitPixels.WeightSum(s, weights, n - 1) + w
  {}

  /** The result of a pixel with survivors stands for the mean about which their weighted distances cancel. */
  lemma SurvivorsCancel(limits: LinearFit.Limits, candidates: seq<Option<real>>, weights: seq<real>, scale: real,
                        offset: real)
    requires LinearFitPixels.Usable(candidates, weights) && scale > 0.0
    ensures var s := LinearFit.Survivors(limits, candidates);
        var value := LinearFitPixels.PixelValue(limits, candidates, weights, scale, offset);
        (forall i :: 0 <= i < |s| ==> s[i].frame < |weights|)
        && (if s == [] then value == 0.0
            else SurvivorDistances(s, weights, MeanOf(value, scale, offset), |s|) == 0.0)
  {
    var s := LinearFit.Survivors(limits, candidates);
    LinearFit.SurvivorsAreIntact(limits, candidates);
    hide LinearFit.Survivors, LinearFit.DistinctFrames, MeanOf;
    var value := LinearFitPixels.PixelValue(limits, candidates, weights, scale, offset);
    if s != [] {
      LinearFitPixels.SumsInRange(s, weights, |s|, s[0].value, s[|s| - 1].value);
      var m := MeanOf(value, scale, offset);
      OutputOfMean(value, scale, offset, m);
      OutputIs(LinearFitPixels.WeightedSum(s, weights, |s|), LinearFitPixels.WeightSum(s, weights, |s|), scale, offset,
          m);
      SumsOfDistances(s, weights, m, |s|);
    }
  }

  /** And lies between the scaled and shifted smallest and largest surviving value. */
  lemma SurvivorBounds(limits: LinearFit.Limits, candidates: seq<Option<real>>, weights: seq<real>, scale: real,
                       offset: real)
    requires LinearFitPixels.Usable(candidates, weights) && scale > 0.0 && LinearFit.Survivors(limits, candidates) != []
    ensures var s := LinearFit.Survivors(limits, candidates);
        scale * s[0].value + offset <= LinearFitPixels.PixelValue(limits, candidates, weights, scale, offset)
          <= scale * s[|s| - 1].value + offset
  {
    var s := LinearFit.Survivors(limits, candidates);
    LinearFit.SurvivorsAreIntact(limits, candidates);
    hide LinearFit.Survivors, LinearFit.DistinctFrames, SplineGrid.Mean, FusedPixels.Output;
    LinearFitPixels.SumsInRange(s, weights, |s|, s[0].value, s[|s| - 1].value);
    OutputBounds(LinearFitPixels.WeightedSum(s, weights, |s|), LinearFitPixels.WeightSum(s, weights, |s|), scale,
        offset, s[0].value, s[|s| - 1].value);
  }

  /** A frame takes part exactly when its sample is finite and above the low range and its weight is positive. */
  lemma CandidateIff(tile: FusedPixels.Request, rangeLow: real, pixel: nat, frame: nat)
    requires tile.Valid() && pixel < tile.pixels && frame < |tile.frames|
    ensures |tile.frames[frame].samples| == tile.pixels
    ensures LinearFitPixels.Candidates(tile, rangeLow, pixel)[frame] != None <==>
        tile.frames[frame].samples[pixel] != NonFinite && tile.frames[frame].weight != 0.0
        && rangeLow < tile.frames[frame].samples[pixel].value
  {
    hide FusedPixels.Request.Normalized;
  }

  /** Every survivor is a frame that took part, with its own normalized sample. */
  lemma SurvivorsTookPart(limits: LinearFit.Limits, tile: FusedPixels.Request, rangeLow: real, pixel: nat, i: nat)
    requires tile.Valid() && pixel < tile.pixels
    requires i < |LinearFit.Survivors(limits, LinearFitPixels.Candidates(tile, rangeLow, pixel))|
    ensures var p := LinearFit.Survivors(limits, LinearFitPixels.Candidates(tile, rangeLow, pixel))[i];
        && p.frame < |tile.frames| && tile.ValidFrame(tile.frames[p.frame])
        && tile.frames[p.frame].samples[pixel].Fin? && tile.frames[p.frame].weight > 0.0
        && tile.frames[p.frame].samples[pixel].value > rangeLow
        && p.value == tile.Normalized(tile.frames[p.frame], pixel)
  {
    hide LinearFit.Survivors, LinearFit.DistinctFrames, LinearFit.Sorted, FusedPixels.Request.Normalized,
      FusedPixels.Request.Valid;
    var candidates := LinearFitPixels.Candidates(tile, rangeLow, pixel);
    var p := LinearFit.Survivors(limits, candidates)[i];
    LinearFit.SurvivorsAreIntact(limits, candidates);
    FusedPixels.FrameIsValid(tile, p.frame);
    CandidateIff(tile, rangeLow, pixel, p.frame);
    WeightValid(tile, p.frame);
  }
}
