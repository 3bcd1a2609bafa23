/**
 Which samples the rejection of native/src/PortableKernels.cpp accepts: one condition per sample, on its deviation from
 the pixel's median and on one noise or floor at a time, and the columns whose deviations a frame's noise pools.
 */
module MadLaws {
  import opened Arithmetic
  import opened OrderStatistics
  import opened PooledWindow
  import opened MadRejection
  import opened MadKernel
  import opened Reals

  // ----- thresholds -----

  /** The deviation is at most so many times this much noise. */
  predicate Within(deviation: real, clip: real, noise: real) {
    deviation <= clip * noise
  }

  lemma WithinMax(d: real, clip: real, a: real, b: real)
    requires clip > 0.0
    ensures Within(d, clip, Max(a, b)) <==> Within(d, clip, a) || Within(d, clip, b)
  {
    if a <= b {
      ScaleUp(clip, a, b);
    } else {
      ScaleUp(clip, b, a);
    }
  }

  /** A deviation that one of the floors covers: of the group, absolute, or a share of the centre or of one. */
  predicate Floored(rule: Rule, deviation: real, center: real) {
    || Within(deviation, rule.sigmaClip, rule.groupSigmaFloor)
    || Within(deviation, rule.sigmaClip, rule.absoluteFloor)
    || Within(deviation, rule.sigmaClip, rule.epsilonFloor)
    || Within(deviation, rule.sigmaClip, rule.epsilonFloor * Abs(center))
  }

  lemma EpsilonShare(epsilon: real, size: real)
    requires epsilon >= 0.0
    ensures epsilon * Max(1.0, size) == Max(epsilon, epsilon * size)
  {
    if size <= 1.0 {
      ScaleUp(epsilon, size, 1.0);
    } else {
      ScaleUp(epsilon, 1.0, size);
    }
  }

  lemma WithinNumericalFloor(rule: Rule, d: real, center: real, share: real)
    requires rule.Valid() && share == rule.epsilonFloor * Abs(center)
    ensures Within(d, rule.sigmaClip, rule.NumericalFloor(center)) <==>
        Within(d, rule.sigmaClip, rule.absoluteFloor) || Within(d, rule.sigmaClip, rule.epsilonFloor)
          || Within(d, rule.sigmaClip, share)
  {
    EpsilonShare(rule.epsilonFloor, Abs(center));
    var floor := Max(rule.epsilonFloor, share);
    assert rule.NumericalFloor(center) == Max(rule.absoluteFloor, floor);
    hide *;
    WithinMax(d, rule.sigmaClip, rule.absoluteFloor, floor);
    WithinMax(d, rule.sigmaClip, rule.epsilonFloor, share);
  }

  lemma WithinThreshold(rule: Rule, d: real, sigma: real, center: real)
    requires rule.Valid()
    ensures d <= rule.Threshold(sigma, center) <==> Within(d, rule.sigmaClip, sigma) || Floored(rule, d, center)
  {
    hide Max, Abs, Rule.NumericalFloor;
    var spread, floor := Max(sigma, rule.groupSigmaFloor), rule.NumericalFloor(center);
    WithinMax(d, rule.sigmaClip, spread, floor);
    WithinMax(d, rule.sigmaClip, sigma, rule.groupSigmaFloor);
    WithinNumericalFloor(rule, d, center, rule.epsilonFloor * Abs(center));
    ThresholdParts(rule, d, sigma, center);
  }

  lemma ThresholdParts(rule: Rule, d: real, sigma: real, center: real)
    ensures d <= rule.Threshold(sigma, center)
      <==> Within(d, rule.sigmaClip, Max(Max(sigma, rule.groupSigmaFloor), rule.NumericalFloor(center)))
  {
    hide Max, Rule.NumericalFloor;
  }

  // ----- phase 1 -----

  /** Too few frames, or too few finite samples of the pixel, to call any sample an outlier. */
  predicate TooFew(rule: Rule, values: seq<Float>) {
    |values| < rule.minimumFrames || |Finite(values)| < rule.minimumFrames
  }

  /** With too few samples every finite one is accepted, by either phase. */
  lemma TooFewAccepted(rule: Rule, root: real -> real, scale: real, pooledMad: real, values: seq<Float>, frame: nat)
    requires rule.Valid() && frame < |values| && TooFew(rule, values)
    ensures Phase1(rule, values, frame) <==> values[frame].Fin?
    ensures Phase2(rule, root, scale, pooledMad, values, frame) <==> values[frame].Fin?
  {
    hide Finite;
  }

  /** Phase 1 accepts a finite sample for 1.4826 times the pixel's own deviation or for a floor, and nothing else. */
  lemma Phase1Iff(rule: Rule, values: seq<Float>, frame: nat)
    requires rule.Valid() && frame < |values| && !TooFew(rule, values)
    ensures Finite(values) != []
    ensures var c := Median(Finite(values));
        Phase1(rule, values, frame) <==>
          values[frame].Fin? &&
            var d := Abs(values[frame].value - c);
            Within(d, rule.sigmaClip, 1.4826 * Mad(Finite(values), c)) || Floored(rule, d, c)
  {
    hide Finite, Median, Mad, Abs, Rule.Threshold, Floored, Within;
    var c := Median(Finite(values));
    if values[frame].Fin? {
      WithinThreshold(rule, Abs(values[frame].value - c), SIGMA_PER_MAD * Mad(Finite(values), c), c);
    }
  }

  // ----- phase 2 -----

  /** The squared noise of a frame: its share of the pool, and what the pixel's own noise has in excess of the pool. */
  function Variance(scale: real, own: real, pool: real): real {
    var share := scale * pool * (scale * pool);
    if own * own > pool * pool then share + (own * own - pool * pool) else share
  }

  /** The squared deviation is at most the squared clip times the squared noise. */
  predicate WithinSquare(deviation: real, clip: real, variance: real) {
    deviation * deviation <= clip * clip * variance
  }

  lemma SigmaSquared(root: real -> real, scale: real, own: real, pool: real, sigma: real)
    requires IsRoot(root) && sigma == FrameSigma(root, scale, own, pool)
    ensures sigma >= 0.0 && sigma * sigma == Variance(scale, own, pool)
  {
    var share, o, p := scale * pool * (scale * pool), own * own, pool * pool;
    var y := Variance(scale, own, pool);
    assert y == share + Max(o - p, 0.0);
    hide *;
    FrameSigmaIs(root, scale, own, pool, share, o, p);
    SquarePositive(scale * pool);
    Nonnegative(share, o - p);
    RootOf(root, y, sigma);
  }

  lemma Nonnegative(share: real, excess: real)
    requires share >= 0.0
    ensures share + Max(excess, 0.0) >= 0.0
  {}

  lemma SquareWithin(d: real, clip: real, sigma: real, variance: real)
    requires d >= 0.0 && clip > 0.0 && sigma >= 0.0 && sigma * sigma == variance
    ensures Within(d, clip, sigma) <==> WithinSquare(d, clip, variance)
  {
    var t := clip * sigma;
    Times(clip, sigma);
    assert t * t == clip * clip * variance by { Squared(clip, sigma, variance); }
    if d <= t {
      Squares(d, t);
    } else {
      SquareOrder(t, d);
    }
  }

  lemma Squared(a: real, b: real, square: real)
    requires square == b * b
    ensures a * b * (a * b) == a * a * square
  {}

  lemma Squares(a: real, b: real)
    requires 0.0 <= a <= b
    ensures a * a <= b * b
  {
    if a < b {
      SquareOrder(a, b);
    }
  }

  /** Phase 2 accepts a finite sample for the frame's own noise or for a floor, and for nothing else. */
  lemma Phase2Iff(rule: Rule, root: real -> real, scale: real, pooledMad: real, values: seq<Float>, frame: nat)
    requires rule.Valid() && IsRoot(root) && frame < |values| && !TooFew(rule, values)
    ensures Finite(values) != []
    ensures var c := Median(Finite(values));
        Phase2(rule, root, scale, pooledMad, values, frame) <==>
          values[frame].Fin? &&
            var d, own := Abs(values[frame].value - c), 1.4826 * Mad(Finite(values), c);
            WithinSquare(d, rule.sigmaClip, Variance(scale, own, 1.4826 * pooledMad)) || Floored(rule, d, c)
  {
    hide Finite, Median, Mad, Rule.Threshold, Floored, Within, WithinSquare, Variance, FrameSigma, IsRoot;
    if values[frame].Fin? {
      var c := Median(Finite(values));
      var d, own := Abs(values[frame].value - c), SIGMA_PER_MAD * Mad(Finite(values), c);
      var sigma := FrameSigma(root, scale, own, SIGMA_PER_MAD * pooledMad);
      SigmaSquared(root, scale, own, SIGMA_PER_MAD * pooledMad, sigma);
      SquareWithin(d, rule.sigmaClip, sigma, Variance(scale, own, SIGMA_PER_MAD * pooledMad));
      WithinThreshold(rule, d, sigma, c);
    }
  }

  // ----- the pool -----

  /** How many of the row's first n columns lie at most halfWidth from x and have a finite deviation up to v. */
  function NearUpTo(row: seq<Float>, halfWidth: nat, x: nat, v: real, n: nat): nat
    requires n <= |row|
  {
    if n == 0 then 0
    else
      var u := n - 1;
      NearUpTo(row, halfWidth, x, v, u)
          + if u <= x + halfWidth && x <= u + halfWidth && row[u].Fin? && row[u].value <= v then 1 else 0
  }

  lemma NearIs(halfWidth: nat, x: nat, width: nat, u: nat)
    requires x < width && u < width
    ensures u <= x + halfWidth && x <= u + halfWidth <==> First(x, halfWidth) <= u < End(x, halfWidth, width)
    ensures First(x, halfWidth) <= x < End(x, halfWidth, width) <= width
  {}

  lemma {:induction false} CountOfSlice(row: seq<Float>, halfWidth: nat, x: nat, v: real, n: nat, first: nat, end: nat)
    requires x < |row| && n <= |row| && first == First(x, halfWidth) && end == End(x, halfWidth, |row|)
    ensures first < end <= |row|
    ensures n <= first ==> NearUpTo(row, halfWidth, x, v, n) == 0
    ensures first <= n <= end ==> NearUpTo(row, halfWidth, x, v, n) == CountUpTo(Finite(row[first..n]), v)
    ensures n >= end ==> NearUpTo(row, halfWidth, x, v, n) == CountUpTo(Finite(row[first..end]), v)
  {
    hide *;
    NearIs(halfWidth, x, |row|, x);
    NothingUpTo(row[first..first], v);
    NearNothing(row, halfWidth, x, v);
    if n > 0 {
      CountOfSlice(row, halfWidth, x, v, n - 1, first, end);
      NearNext(row, halfWidth, x, v, n, first, end);
      if first < n <= end {
        NextOfSlice(row, first, n, v);
      }
    }
  }

  lemma NearNothing(row: seq<Float>, halfWidth: nat, x: nat, v: real)
    ensures NearUpTo(row, halfWidth, x, v, 0) == 0
  {}

  lemma NearNext(row: seq<Float>, halfWidth: nat, x: nat, v: real, n: nat, first: nat, end: nat)
    requires x < |row| && 0 < n <= |row| && first == First(x, halfWidth) && end == End(x, halfWidth, |row|)
    ensures NearUpTo(row, halfWidth, x, v, n) == NearUpTo(row, halfWidth, x, v, n - 1)
      + if first < n <= end && row[n - 1].Fin? && row[n - 1].value <= v then 1 else 0
  {
    hide First, End;
    NearIs(halfWidth, x, |row|, n - 1);
  }

  lemma NothingUpTo(values: seq<Float>, v: real)
    requires values == []
    ensures CountUpTo(Finite(values), v) == 0
  {}

  lemma NextOfSlice(row: seq<Float>, first: nat, n: nat, v: real)
    requires first < n <= |row|
    ensures CountUpTo(Finite(row[first..n]), v)
      == CountUpTo(Finite(row[first..n - 1]), v) + if row[n - 1].Fin? && row[n - 1].value <= v then 1 else 0
  {
    assert row[first..n] == row[first..n - 1] + [row[n - 1]];
    FiniteAppend(row[first..n - 1], row[n - 1]);
    var before := Finite(row[first..n - 1]);
    if row[n - 1].Fin? {
      CountUpToAppend(before, row[n - 1].value, v);
    } else {
      assert before + [] == before;
    }
  }

  /** The pooled values are the finite deviations of the columns at most halfWidth away in the pixel's own row. */
  lemma PooledColumns(madMap: seq<Float>, width: nat, halfWidth: nat, row: nat, x: nat, v: real)
    requires x < width && row * width + width <= |madMap|
    ensures CountUpTo(WindowValues(madMap, width, halfWidth, row * width, x), v)
      == NearUpTo(madMap[row * width..row * width + width], halfWidth, x, v, width)
  {
    hide *;
    PooledFrom(madMap, width, halfWidth, row * width, x, v);
  }

  lemma PooledFrom(madMap: seq<Float>, width: nat, halfWidth: nat, start: nat, x: nat, v: real)
    requires x < width && start + width <= |madMap|
    ensures CountUpTo(WindowValues(madMap, width, halfWidth, start, x), v)
      == NearUpTo(madMap[start..start + width], halfWidth, x, v, width)
  {
    hide Finite, CountUpTo, NearUpTo, First, End;
    var own := madMap[start..start + width];
    var first, end := First(x, halfWidth), End(x, halfWidth, width);
    CountOfSlice(own, halfWidth, x, v, width, first, end);
    SliceOfSlice(madMap, start, width, first, end);
  }

  lemma SliceOfSlice(madMap: seq<Float>, start: nat, width: nat, first: nat, end: nat)
    requires start + width <= |madMap| && first <= end <= width
    ensures madMap[start + first..start + end] == madMap[start..start + width][first..end]
  {
    var own := madMap[start..start + width];
    forall k | 0 <= k < end - first
      ensures madMap[start + first..start + end][k] == own[first..end][k]
    {
      assert own[first + k] == madMap[start + (first + k)];
    }
  }

  // ----- the mask -----

  /** The finite deviations that are pooled at column x of a row. */
  ghost function Pool(req: Request, samples: array2<Float>, width: nat, row: nat, x: nat): seq<real>
    requires x < width && row * width + width <= samples.Length1
    reads samples
  {
    WindowValues(MadMap(req.rule, samples), width, req.poolHalfWidth, row * width, x)
  }

  /** The frame's scale, 1 if the request gives none. */
  function ScaleOf(req: Request, frame: nat): real
    requires req.frameScales == [] || frame < |req.frameScales|
  {
    if req.frameScales == [] then 1.0 else req.frameScales[frame]
  }

  /** The sample is finite and its deviation is covered by the frame's noise about the pool or by a floor. */
  ghost predicate Covered(req: Request, values: seq<Float>, frame: nat, pool: real)
    requires frame < |values| && Finite(values) != [] && (req.frameScales == [] || frame < |req.frameScales|)
  {
    var c := Median(Finite(values));
    values[frame].Fin? &&
    var d, own := Abs(values[frame].value - c), 1.4826 * Mad(Finite(values), c);
    WithinSquare(d, req.rule.sigmaClip, Variance(ScaleOf(req, frame), own, 1.4826 * pool))
    || Floored(req.rule, d, c)
  }

  lemma PixelOf(width: nat, rows: nat, row: nat, x: nat, pixel: nat)
    requires x < width && row < rows && pixel == row * width + x
    ensures pixel % width == x && pixel - x == row * width && row * width + width <= rows * width
    ensures pixel < rows * width
  {
    PixelAt(pixel, width, row, x);
    MulMonotone(row, rows, width);
  }

  lemma OwnVariance(own: real, d: real, clip: real)
    requires own >= 0.0 && d >= 0.0 && clip > 0.0
    ensures WithinSquare(d, clip, Variance(1.0, own, own)) <==> Within(d, clip, own)
  {
    hide WithinSquare;
    assert Variance(1.0, own, own) == own * own;
    SquareWithin(d, clip, own, own * own);
  }

  lemma Phase2Covered(req: Request, values: seq<Float>, frame: nat, pool: real)
    requires req.rule.Valid() && IsRoot(req.root) && frame < |values| && !TooFew(req.rule, values)
    requires req.frameScales == [] || frame < |req.frameScales|
    ensures Finite(values) != []
    ensures Phase2(req.rule, req.root, req.Scale(frame), pool, values, frame) <==> Covered(req, values, frame, pool)
  {
    hide Phase2, Finite, Median, Mad, Floored, WithinSquare, Variance, IsRoot, TooFew;
    Phase2Iff(req.rule, req.root, req.Scale(frame), pool, values, frame);
  }

  lemma Phase1Covered(req: Request, values: seq<Float>, frame: nat)
    requires req.rule.Valid() && frame < |values| && !TooFew(req.rule, values)
    requires req.frameScales == [] || (frame < |req.frameScales| && req.frameScales[frame] == 1.0)
    ensures Finite(values) != [] && PixelMad(req.rule, values).Fin?
    ensures Phase1(req.rule, values, frame) <==> Covered(req, values, frame, PixelMad(req.rule, values).value)
  {
    hide Phase1, Finite, Median, Mad, Floored, WithinSquare, Variance, Within;
    Phase1Iff(req.rule, values, frame);
    MadOfPixel(req.rule, values);
    if values[frame].Fin? {
      var c := Median(Finite(values));
      OwnVariance(1.4826 * Mad(Finite(values), c), Abs(values[frame].value - c), req.rule.sigmaClip);
    }
  }

  lemma ColumnIs(samples: array2<Float>, pixel: nat, values: seq<Float>)
    requires pixel < samples.Length1 && |values| == samples.Length0
    requires forall f :: 0 <= f < samples.Length0 ==> values[f] == samples[f, pixel]
    ensures Column(samples, pixel) == values
  {}

  lemma UnscaledIs(req: Request, frames: nat, frame: nat)
    requires !Scaled(req, frames) && frames >= req.rule.minimumFrames && frame < frames && req.Valid(frames)
    ensures req.poolHalfWidth == 0 && (req.frameScales == [] || req.frameScales[frame] == 1.0)
  {}

  /**
   The mask, by either phase: with too few samples every finite one is accepted, otherwise exactly those that the
   frame's noise covers, pooled about the pixel's column in its own row, or a floor.
   */
  lemma DecisionIff(req: Request, samples: array2<Float>, width: nat, rows: nat, frame: nat, row: nat, x: nat,
                    values: seq<Float>)
    requires req.Valid(samples.Length0) && IsRoot(req.root) && width > 0 && samples.Length1 == rows * width
    requires frame < samples.Length0 && x < width && row < rows
    requires row * width + x < samples.Length1 && row * width + width <= samples.Length1
    requires |values| == samples.Length0 && forall f :: 0 <= f < samples.Length0 ==>
      values[f] == samples[f, row * width + x]
    ensures TooFew(req.rule, values) ==>
      (Decision(req, samples, width, rows, frame, row * width + x) <==> values[frame].Fin?)
    ensures !TooFew(req.rule, values) ==>
      Finite(values) != [] && Pool(req, samples, width, row, x) != []
      && (Decision(req, samples, width, rows, frame, row * width + x)
          <==> Covered(req, values, frame, Median(Pool(req, samples, width, row, x))))
  {
    hide Phase1, Phase2, Finite, Median, Mad, Covered, Column, PixelMad, IsRoot, WindowValues, TooFew, Rule.Valid;
    var pixel := row * width + x;
    PixelOf(width, rows, row, x, pixel);
    ColumnIs(samples, pixel, values);
    var madMap := MadMap(req.rule, samples);
    assert madMap[pixel] == PixelMad(req.rule, values);
    if TooFew(req.rule, values) {
      TooFewAccepted(req.rule, req.root, req.Scale(frame), 0.0, values, frame);
      TooFewMad(req.rule, values);
    } else {
      EnoughMad(req.rule, values);
      WindowHasCentre(madMap, width, req.poolHalfWidth, row * width, x);
      var pool := PooledMad(madMap, width, req.poolHalfWidth, pixel, rows);
      assert pool == Median(Pool(req, samples, width, row, x));
      if Scaled(req, samples.Length0) {
        Phase2Covered(req, values, frame, pool);
      } else {
        UnscaledIs(req, samples.Length0, frame);
        NoPooling(madMap, width, pixel, rows);
        Phase1Covered(req, values, frame);
      }
    }
  }

  lemma TooFewMad(rule: Rule, values: seq<Float>)
    requires TooFew(rule, values)
    ensures PixelMad(rule, values).NonFinite?
  {
    hide Finite;
  }

  lemma EnoughMad(rule: Rule, values: seq<Float>)
    requires rule.Valid() && !TooFew(rule, values)
    ensures Finite(values) != [] && PixelMad(rule, values).Fin? && |values| >= rule.minimumFrames
  {
    hide Finite;
  }

  /** The centre of a pixel: none if no sample is finite, else a value with half of the finite ones on either side. */
  lemma CenterIff(samples: array2<Float>, pixel: nat, values: seq<Float>)
    requires pixel < samples.Length1 && |values| == samples.Length0
    requires forall f :: 0 <= f < samples.Length0 ==> values[f] == samples[f, pixel]
    ensures Center(Column(samples, pixel)).NonFinite? <==> forall f :: 0 <= f < |values| ==> values[f].NonFinite?
    ensures var c := Center(Column(samples, pixel));
        c.Fin? ==>
          2 * CountUpTo(Finite(values), c.value) >= |Finite(values)|
          && 2 * CountBelow(Finite(values), c.value) <= |Finite(values)|
  {
    hide Median, CountUpTo, CountBelow, Column;
    ColumnIs(samples, pixel, values);
    NoneIsFinite(values);
    if Finite(values) != [] {
      HalfUpToMedian(Finite(values));
      HalfBelowMedian(Finite(values));
    }
  }

  lemma {:induction false} NoneIsFinite(values: seq<Float>)
    ensures Finite(values) == [] <==> forall f :: 0 <= f < |values| ==> values[f].NonFinite?
  {
    if values != [] {
      var n := |values| - 1;
      NoneIsFinite(values[..n]);
      assert values == values[..n] + [values[n]];
    }
  }

  /** At most half of a sample lies below its median. */
  lemma HalfBelowMedian(s: seq<real>)
    requires s != []
    ensures 2 * CountBelow(s, Median(s)) <= |s|
  {
    hide Sort, CountBelow;
    var r := Sort(s);
    SortAscending(s);
    CountSort(s, Median(s));
    assert forall j :: |r| / 2 <= j < |r| ==> r[j] >= Middle(r) by { MiddleBelow(r); }
    BelowInside(r, 0, |r| / 2, Middle(r));
  }

  lemma MiddleBelow(r: seq<real>)
    requires r != [] && Ascending(r)
    ensures forall j :: |r| / 2 <= j < |r| ==> r[j] >= Middle(r)
  {
    var half := |r| / 2;
    if |r| % 2 == 0 {
      assert r[half - 1] <= r[half];
    }
    assert forall j :: half <= j < |r| ==> r[half] <= r[j];
  }
}
