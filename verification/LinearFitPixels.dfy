/**
 The linear-fit integration of native/src/FusedIntegration.cpp as it runs: paired arrays that are filled by
 insertion and compacted in place.
 */
module LinearFitPixels {
  import opened Wrappers
  import opened PooledWindow
  import opened OrderStatistics
  import opened LinearFit
  import SplineGrid
  import FusedPixels
  import opened Reals

  /** The arrays start with the pairs s. */
  ghost predicate Holds(values: array<real>, frames: array<nat>, s: seq<Pair>)
    reads values, frames
  {
    |s| <= values.Length && |s| <= frames.Length && forall i :: 0 <= i < |s| ==>
        values[i] == s[i].value && frames[i] == s[i].frame
  }

  lemma {:induction false} InsertPairAt(s: seq<Pair>, p: Pair, j: nat)
    requires j <= |s| && (j > 0 ==> s[j - 1].value <= p.value) && forall i :: j <= i < |s| ==> s[i].value > p.value
    ensures InsertPair(s, p) == s[..j] + [p] + s[j..]
    ensures var r := InsertPair(s, p);
        r[j] == p && (forall i :: 0 <= i < j ==> r[i] == s[i]) && (forall i :: j < i < |r| ==> r[i] == s[i - 1])
  {
    if j < |s| {
      var front := s[..|s| - 1];
      InsertPairAt(front, p, j);
      assert front[..j] == s[..j] && front[j..] + [s[|s| - 1]] == s[j..];
    } else {
      assert s[..j] == s && s[j..] == [];
    }
  }

  /** Move larger values up and write the pair below them. */
  method InsertSorted(values: array<real>, frames: array<nat>, count: nat, value: real, frame: nat, ghost s: seq<Pair>)
    requires Holds(values, frames, s) && count == |s| && count < values.Length && count < frames.Length
    modifies values, frames
    ensures Holds(values, frames, InsertPair(s, Pair(value, frame)))
  {
    hide InsertPair;
    var position := count;
    while position > 0 && values[position - 1] > value
      invariant 0 <= position <= count
      invariant forall i :: 0 <= i < position ==> values[i] == s[i].value && frames[i] == s[i].frame
      invariant forall i :: position < i <= count ==> values[i] == s[i - 1].value && frames[i] == s[i - 1].frame
      invariant forall i :: position <= i < count ==> s[i].value > value
    {
      values[position] := values[position - 1];
      frames[position] := frames[position - 1];
      position := position - 1;
    }
    values[position] := value;
    frames[position] := frame;
    InsertPairAt(s, Pair(value, frame), position);
  }

  // ----- the line -----

  method FillResiduals(values: array<real>, count: nat, slope: real, scratch: array<real>)
    requires count <= values.Length && count <= scratch.Length && scratch != values
    modifies scratch
    ensures scratch[..count] == Residuals(values[..count], slope)
  {
    hide Residual;
    for i := 0 to count
      invariant forall j :: 0 <= j < i ==> scratch[j] == Residual(values[j], slope, j)
    {
      scratch[i] := Residual(values[i], slope, i);
    }
  }

  method ScoreOf(values: array<real>, count: nat, intercept: real, slope: real) returns (score: real)
    requires count <= values.Length
    ensures score == Score(values[..count], intercept, slope, count)
  {
    score := 0.0;
    for i := 0 to count
      invariant score == Score(values[..count], intercept, slope, i)
    {
      var residual := values[i] - (intercept + slope * i as real);
      score := score + if residual > 0.0 then i as real else if residual < 0.0 then -(i as real) else 0.0;
    }
  }

  method DeviationOf(values: array<real>, count: nat, a: real, b: real) returns (sum: real)
    requires count <= values.Length
    ensures sum == DeviationSum(values[..count], a, b, count)
  {
    sum := 0.0;
    for i := 0 to count
      invariant sum == DeviationSum(values[..count], a, b, i)
    {
      sum := sum + Abs(values[i] - (a + b * i as real));
    }
  }

  /** FitSortedLadLine. */
  method FitSortedLadLine(values: array<real>, count: nat, iterations: nat) returns (line: Line)
    requires 2 <= count <= values.Length
    ensures line == FitLine(values[..count], iterations)
  {
    var scratch := new real[count];
    line := FitInto(values, count, iterations, scratch);
  }

  method FitInto(values: array<real>, count: nat, iterations: nat, scratch: array<real>) returns (line: Line)
    requires 2 <= count <= values.Length && scratch.Length == count && scratch != values
    modifies scratch
    ensures line == FitLine(values[..count], iterations)
  {
    hide Median, Residuals, Score, DeviationSum;
    ghost var s := values[..count];
    var low := 0.0;
    var slope := 4.0 * (values[count - 1] - values[0]) / (count - 1) as real;
    var high := if 0.000000000001 < slope then slope else 0.000000000001;
    assert high == SteepestSlope(s);
    hide SteepestSlope;
    for iteration := 0 to iterations
      invariant values[..count] == s
      invariant Bracket(s, low, high, iterations - iteration) == Bracket(s, 0.0, SteepestSlope(s), iterations)
    {
      slope := 0.5 * (low + high);
      FillResiduals(values, count, slope, scratch);
      var intercept := MedianOfFinite(scratch, count);
      var score := ScoreOf(values, count, intercept, slope);
      if score > 0.0 {
        low := slope;
      } else {
        high := slope;
      }
    }
    var b := 0.5 * (low + high);
    FillResiduals(values, count, b, scratch);
    var a := MedianOfFinite(scratch, count);
    var deviation := DeviationOf(values, count, a, b);
    line := Line(a, b, deviation / count as real);
  }

  // ----- rejection -----

  /** Close the gaps that rejected samples leave. */
  method Compact(limits: Limits, line: Line, values: array<real>, frames: array<nat>, count: nat, ghost s: seq<Pair>)
    returns (kept: nat)
    requires limits.Scale(line) > 0.0 && Holds(values, frames, s) && count == |s|
    modifies values, frames
    ensures kept == |limits.Kept(s, line, |s|)| && Holds(values, frames, limits.Kept(s, line, |s|))
  {
    hide Limits.Close, Limits.Scale;
    kept := 0;
    for i := 0 to count
      invariant kept == |limits.Kept(s, line, i)| <= i
      invariant Holds(values, frames, limits.Kept(s, line, i))
      invariant forall j :: i <= j < count ==> values[j] == s[j].value && frames[j] == s[j].frame
    {
      if limits.Close(line, values[i], i) {
        values[kept] := values[i];
        frames[kept] := frames[i];
        kept := kept + 1;
      }
    }
  }

  /** The rejection rounds of one pixel. */
  method Reject(limits: Limits, values: array<real>, frames: array<nat>, size: nat, ghost s: seq<Pair>)
    returns (count: nat)
    requires limits.Valid() && Holds(values, frames, s) && size == |s|
    modifies values, frames
    ensures count == |limits.Rounds(s, limits.rounds)| && Holds(values, frames, limits.Rounds(s, limits.rounds))
  {
    hide Limits.Scale, Limits.Kept, FitLine, Limits.Valid;
    count := size;
    ghost var current := s;
    for round := 0 to limits.rounds
      invariant Holds(values, frames, current) && count == |current|
      invariant limits.Rounds(current, limits.rounds - round) == limits.Rounds(s, limits.rounds)
    {
      if count < 5 { break; }
      var line := FitSortedLadLine(values, count, limits.bisections);
      assert values[..count] == Values(current);
      if limits.Exact(line) { break; }
      var kept := Compact(limits, line, values, frames, count, current);
      if kept == count {
        AllKept(limits, current, line, |current|);
        break;
      }
      current := limits.Kept(current, line, |current|);
      count := kept;
    }
  }

  lemma {:induction false} AllKept(limits: Limits, s: seq<Pair>, line: Line, n: nat)
    requires limits.Scale(line) > 0.0 && n <= |s| && |limits.Kept(s, line, n)| == n
    ensures limits.Kept(s, line, n) == s[..n]
  {
    hide Limits.Close, Limits.Scale;
    if n > 0 {
      AllKept(limits, s, line, n - 1);
      assert s[..n] == s[..n - 1] + [s[n - 1]];
    }
  }

  // ----- the weighted mean of the survivors -----

  function WeightedSum(s: seq<Pair>, weights: seq<real>, n: nat): real
    requires n <= |s| && forall i :: 0 <= i < |s| ==> s[i].frame < |weights|
  {
    if n == 0 then 0.0 else WeightedSum(s, weights, n - 1) + weights[s[n - 1].frame] * s[n - 1].value
  }

  function WeightSum(s: seq<Pair>, weights: seq<real>, n: nat): real
    requires n <= |s| && forall i :: 0 <= i < |s| ==> s[i].frame < |weights|
  {
    if n == 0 then 0.0 else WeightSum(s, weights, n - 1) + weights[s[n - 1].frame]
  }

  /** A frame with no positive weight is never usable. */
  ghost predicate Usable(candidates: seq<Option<real>>, weights: seq<real>) {
    |weights| == |candidates| && forall f :: 0 <= f < |candidates| && candidates[f].Some? ==> weights[f] > 0.0
  }

  /** The result at one pixel. */
  function PixelValue(limits: Limits, candidates: seq<Option<real>>, weights: seq<real>, scale: real,
                      offset: real): real
    requires |weights| == |candidates|
  {
    var s := Survivors(limits, candidates);
    SurvivorsAreIntact(limits, candidates);
    FusedPixels.Output(WeightedSum(s, weights, |s|), WeightSum(s, weights, |s|), scale, offset)
  }

  lemma {:induction false} SumsInRange(s: seq<Pair>, weights: seq<real>, n: nat, low: real, high: real)
    requires n <= |s| && forall i :: 0 <= i < |s| ==>
      s[i].frame < |weights| && weights[s[i].frame] > 0.0 && low <= s[i].value <= high
    ensures SplineGrid.Mean(WeightedSum(s, weights, n), low, high, WeightSum(s, weights, n))
    ensures n > 0 ==> WeightSum(s, weights, n) > 0.0
    ensures WeightSum(s, weights, n) >= 0.0
  {
    hide SplineGrid.Mean;
    if n == 0 {
      SplineGrid.NoMean(low, high);
    } else {
      SumsInRange(s, weights, n - 1, low, high);
      var w, v := weights[s[n - 1].frame], s[n - 1].value;
      assert WeightedSum(s, weights, n) == WeightedSum(s, weights, n - 1) + w * v;
      assert WeightSum(s, weights, n) == WeightSum(s, weights, n - 1) + w;
      SplineGrid.AddToMean(WeightedSum(s, weights, n - 1), low, high, WeightSum(s, weights, n - 1), v, w, w * v,
          WeightSum(s, weights, n - 1) + w);
    }
  }

  /** With any survivor, the unscaled result lies between the smallest and the largest surviving value. */
  lemma PixelInRange(limits: Limits, candidates: seq<Option<real>>, weights: seq<real>)
    requires Usable(candidates, weights) && Survivors(limits, candidates) != []
    ensures var s := Survivors(limits, candidates);
        s[0].value <= PixelValue(limits, candidates, weights, 1.0, 0.0) <= s[|s| - 1].value
  {
    var s := Survivors(limits, candidates);
    SurvivorsAreIntact(limits, candidates);
    hide Survivors, DistinctFrames;
    SumsInRange(s, weights, |s|, s[0].value, s[|s| - 1].value);
    var sum, w := WeightedSum(s, weights, |s|), WeightSum(s, weights, |s|);
    FusedPixels.Quotient(sum, w, s[0].value, s[|s| - 1].value, sum / w);
  }

  /** RunCpuOracleNativeLinearFitIntegration at one pixel. */
  method LinearFitPixel(limits: Limits, candidates: seq<Option<real>>, weights: seq<real>, scale: real, offset: real)
    returns (integrated: real, accepted: nat, rejected: nat)
    requires limits.Valid() && |weights| == |candidates|
    ensures integrated == PixelValue(limits, candidates, weights, scale, offset)
    ensures accepted == |Survivors(limits, candidates)| && accepted + rejected == |candidates|
  {
    var values, frames := new real[|candidates|], new nat[|candidates|];
    var count := CollectInto(candidates, values, frames);
    count := Reject(limits, values, frames, count, Collected(candidates, |candidates|));
    SurvivorsAreIntact(limits, candidates);
    ghost var s := Survivors(limits, candidates);
    hide Survivors, Limits.Valid, FusedPixels.Output, Sorted, DistinctFrames;
    var weighted, weightSum := MeanOf(values, frames, count, weights, s);
    integrated := FusedPixels.Output(weighted, weightSum, scale, offset);
    accepted, rejected := count, |candidates| - count;
  }

  method CollectInto(candidates: seq<Option<real>>, values: array<real>, frames: array<nat>) returns (count: nat)
    requires values.Length == |candidates| && frames.Length == |candidates|
    modifies values, frames
    ensures count == |Collected(candidates, |candidates|)| && Holds(values, frames, Collected(candidates, |candidates|))
  {
    hide InsertPair;
    count := 0;
    for frame := 0 to |candidates|
      invariant count == |Collected(candidates, frame)| <= frame
      invariant Holds(values, frames, Collected(candidates, frame))
    {
      if candidates[frame].Some? {
        InsertSorted(values, frames, count, candidates[frame].value, frame, Collected(candidates, frame));
        count := count + 1;
      }
    }
  }

  method MeanOf(values: array<real>, frames: array<nat>, count: nat, weights: seq<real>, ghost s: seq<Pair>)
    returns (weighted: real, weightSum: real)
    requires Holds(values, frames, s) && count == |s| && forall i :: 0 <= i < |s| ==> s[i].frame < |weights|
    ensures weighted == WeightedSum(s, weights, |s|) && weightSum == WeightSum(s, weights, |s|)
  {
    weighted, weightSum := 0.0, 0.0;
    for i := 0 to count
      invariant weighted == WeightedSum(s, weights, i) && weightSum == WeightSum(s, weights, i)
    {
      var weight := weights[frames[i]];
      weighted := weighted + weight * values[i];
      weightSum := weightSum + weight;
    }
  }

  // ----- a tile -----

  /** The normalized samples of a pixel that may take part: finite, above the low range, with a positive weight. */
  function Candidate(tile: FusedPixels.Request, rangeLow: real, pixel: nat, frame: nat): Option<real>
    requires tile.Valid() && pixel < tile.pixels && frame < |tile.frames|
  {
    var f := tile.frames[frame];
    FusedPixels.FrameIsValid(tile, frame);
    if f.samples[pixel].Fin? && f.samples[pixel].value > rangeLow && f.weight > 0.0
    then Some(tile.Normalized(f, pixel)) else None
  }

  function Candidates(tile: FusedPixels.Request, rangeLow: real, pixel: nat): (c: seq<Option<real>>)
    requires tile.Valid() && pixel < tile.pixels
    ensures |c| == |tile.frames|
  {
    seq(|tile.frames|, f requires 0 <= f < |tile.frames| => Candidate(tile, rangeLow, pixel, f))
  }

  function Weights(tile: FusedPixels.Request): (w: seq<real>)
    ensures |w| == |tile.frames|
  {
    seq(|tile.frames|, f requires 0 <= f < |tile.frames| => tile.frames[f].weight)
  }

  /** Only frames of positive weight are candidates, so the weighted mean of any survivor set is defined. */
  lemma CandidatesUsable(tile: FusedPixels.Request, rangeLow: real, pixel: nat)
    requires tile.Valid() && pixel < tile.pixels
    ensures Usable(Candidates(tile, rangeLow, pixel), Weights(tile))
  {
    hide FusedPixels.Request.Normalized, FusedPixels.Request.Valid;
  }

  /** RunCpuOracleNativeLinearFitIntegration: every pixel of the tile on its own. */
  method RunLinearFitIntegration(tile: FusedPixels.Request, rangeLow: real, limits: Limits,
                                 integrated: array<real>, accepted: array<nat>, rejected: array<nat>)
    requires tile.Valid() && limits.Valid()
    requires integrated.Length == tile.pixels && accepted.Length == tile.pixels && rejected.Length == tile.pixels
      && accepted != rejected
    modifies integrated, accepted, rejected
    ensures forall p :: 0 <= p < tile.pixels ==>
      integrated[p]
          == PixelValue(limits, Candidates(tile, rangeLow, p), Weights(tile), tile.outputScale, tile.outputOffset)
    ensures forall p :: 0 <= p < tile.pixels ==>
      accepted[p] == |Survivors(limits, Candidates(tile, rangeLow, p))| && accepted[p] + rejected[p] == |tile.frames|
  {
    hide FusedPixels.Request.Valid, PixelValue, Survivors, Candidates, Weights, Limits.Valid;
    var weights := Weights(tile);
    for pixel := 0 to tile.pixels
      invariant forall p :: 0 <= p < pixel ==>
        integrated[p]
            == PixelValue(limits, Candidates(tile, rangeLow, p), Weights(tile), tile.outputScale, tile.outputOffset)
      invariant forall p :: 0 <= p < pixel ==>
        accepted[p] == |Survivors(limits, Candidates(tile, rangeLow, p))| && accepted[p] + rejected[p] == |tile.frames|
    {
      var candidates := CollectCandidates(tile, rangeLow, pixel);
      var value, kept, dropped := LinearFitPixel(limits, candidates, weights, tile.outputScale, tile.outputOffset);
      integrated[pixel] := value;
      accepted[pixel] := kept;
      rejected[pixel] := dropped;
    }
  }

  method CollectCandidates(tile: FusedPixels.Request, rangeLow: real, pixel: nat)
    returns (candidates: seq<Option<real>>)
    requires tile.Valid() && pixel < tile.pixels
    ensures candidates == Candidates(tile, rangeLow, pixel)
  {
    hide FusedPixels.Request.Valid, Candidate;
    candidates := [];
    for frame := 0 to |tile.frames|
      invariant |candidates| == frame && forall f :: 0 <= f < frame ==>
        candidates[f] == Candidate(tile, rangeLow, pixel, f)
    {
      var candidate := CandidateOf(tile, rangeLow, pixel, frame);
      candidates := candidates + [candidate];
    }
    SameCandidates(tile, rangeLow, pixel, candidates);
  }

  lemma SameCandidates(tile: FusedPixels.Request, rangeLow: real, pixel: nat, c: seq<Option<real>>)
    requires tile.Valid() && pixel < tile.pixels && |c| == |tile.frames| && forall f :: 0 <= f < |c| ==>
      c[f] == Candidate(tile, rangeLow, pixel, f)
    ensures c == Candidates(tile, rangeLow, pixel)
  {
    hide FusedPixels.Request.Valid, Candidate;
  }

  method CandidateOf(tile: FusedPixels.Request, rangeLow: real, pixel: nat, frame: nat)
    returns (candidate: Option<real>)
    requires tile.Valid() && pixel < tile.pixels && frame < |tile.frames|
    ensures candidate == Candidate(tile, rangeLow, pixel, frame)
  {
    hide FusedPixels.Request.Valid, FusedPixels.Request.GridX, FusedPixels.Request.GridY, SplineGrid.Sample;
    var f := tile.frames[frame];
    FusedPixels.FrameIsValid(tile, frame);
    var a := SplineGrid.BicubicBSplineSample(f.scaleGrid, tile.gridWidth, tile.gridHeight, tile.GridX(pixel),
        tile.GridY(pixel));
    var b := SplineGrid.BicubicBSplineSample(f.offsetGrid, tile.gridWidth, tile.gridHeight, tile.GridX(pixel),
        tile.GridY(pixel));
    if f.samples[pixel].NonFinite? || f.samples[pixel].value <= rangeLow || f.weight <= 0.0 { return None; }
    NormalizedIs(tile, f, pixel, a, b);
    hide FusedPixels.Request.Normalized;
    return Some(a * f.samples[pixel].value + b);
  }

  lemma NormalizedIs(tile: FusedPixels.Request, f: FusedPixels.Frame, pixel: nat, a: real, b: real)
    requires tile.Valid() && tile.ValidFrame(f) && pixel < tile.pixels && f.samples[pixel].Fin?
    requires a == SplineGrid.Sample(f.scaleGrid, tile.gridWidth, tile.gridHeight, tile.GridX(pixel), tile.GridY(pixel))
    requires b == SplineGrid.Sample(f.offsetGrid, tile.gridWidth, tile.gridHeight, tile.GridX(pixel), tile.GridY(pixel))
    ensures tile.Normalized(f, pixel) == a * f.samples[pixel].value + b
  {
    hide FusedPixels.Request.Valid, FusedPixels.Request.GridX, FusedPixels.Request.GridY, SplineGrid.Sample;
  }
}
