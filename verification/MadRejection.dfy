/**
 Median/MAD sigma clipping over a frame stack (MadRejectionMask and ScaledRejectionDecisions in
 native/src/PortableKernels.cpp): the per-pixel rule of phase 1 and the pooled scale model of phase 2.
 */
module MadRejection {
  import opened OrderStatistics
  import opened PooledWindow
  import opened Reals

  datatype Rule = Rule(
    sigmaClip: real, minimumFrames: nat, groupSigmaFloor: real, absoluteFloor: real, epsilonFloor: real) {

    /** MadRejectionRequest::Validate. */
    predicate Valid() {
      sigmaClip > 0.0 && minimumFrames >= 3 && groupSigmaFloor >= 0.0 && absoluteFloor >= 0.0 && epsilonFloor >= 0.0
    }

    function NumericalFloor(center: real): real {
      Max(absoluteFloor, epsilonFloor * Max(1.0, Abs(center)))
    }

    function Threshold(sigma: real, center: real): real {
      sigmaClip * Max(Max(sigma, groupSigmaFloor), NumericalFloor(center))
    }
  }

  function IsKept(value: Float, center: real, threshold: real): bool {
    value.Fin? && Abs(value.value - center) <= threshold
  }

  /** Enough frames, and enough finite samples of this pixel, to infer outliers. */
  predicate Decides(rule: Rule, values: seq<Float>) {
    |values| >= rule.minimumFrames && |Finite(values)| >= rule.minimumFrames
  }

  function Center(values: seq<Float>): Float {
    if Finite(values) == [] then NonFinite else Fin(Median(Finite(values)))
  }

  /** The pixel's MAD; NaN when there are too few finite samples for a decision. */
  function PixelMad(rule: Rule, values: seq<Float>): Float {
    var finite := Finite(values);
    if Decides(rule, values) && finite != [] then Fin(Mad(finite, Median(finite))) else NonFinite
  }

  const SIGMA_PER_MAD: real := 1.4826

  /** The largest stack that Validate accepts. */
  const MAXIMUM_FRAMES: nat := 65535

  /** Phase 1: the decision for one frame's sample of a pixel. */
  function Phase1(rule: Rule, values: seq<Float>, frame: nat): bool
    requires rule.Valid() && frame < |values|
  {
    var mad := PixelMad(rule, values);
    if mad.NonFinite? then values[frame].Fin?
    else
      var c := Median(Finite(values));
      IsKept(values[frame], c, rule.Threshold(SIGMA_PER_MAD * mad.value, c))
  }

  /** The noise of one frame: the pooled sigma scaled to the frame, plus the pixel's excess over the pool. */
  function FrameSigma(root: real -> real, scale: real, robustSigma: real, sigmaPool: real): real {
    var excess := Max(robustSigma * robustSigma - sigmaPool * sigmaPool, 0.0);
    var scaled := scale * sigmaPool;
    root(scaled * scaled + excess)
  }

  /** Phase 2: the decision under the pooled scale model. */
  function Phase2(rule: Rule, root: real -> real, scale: real, pooledMad: real, values: seq<Float>, frame: nat): bool
    requires rule.Valid() && frame < |values|
  {
    var mad := PixelMad(rule, values);
    if mad.NonFinite? then values[frame].Fin?
    else
      var c := Median(Finite(values));
      IsKept(values[frame], c,
          rule.Threshold(FrameSigma(root, scale, SIGMA_PER_MAD * mad.value, SIGMA_PER_MAD * pooledMad), c))
  }

  // ----- phase 1 keeps at least half of the finite samples -----

  /** How many of the first n samples phase 1 keeps. */
  function KeptCount(rule: Rule, values: seq<Float>, n: nat): nat
    requires rule.Valid() && n <= |values|
  {
    if n == 0 then 0 else KeptCount(rule, values, n - 1) + if Phase1(rule, values, n - 1) then 1 else 0
  }

  lemma {:induction false} CountMonotone(s: seq<real>, v: real, w: real)
    requires v <= w
    ensures CountUpTo(s, v) <= CountUpTo(s, w)
  {
    if s != [] {
      CountMonotone(s[..|s| - 1], v, w);
    }
  }

  /** At least half of an ascending sample does not exceed its middle. */
  lemma HalfUpToMiddle(r: seq<real>)
    requires r != [] && Ascending(r)
    ensures 2 * CountUpTo(r, Middle(r)) >= |r|
  {
    hide CountUpTo;
    var half := |r| / 2;
    if |r| % 2 != 0 {
      UpToInside(r, 0, half + 1, r[half]);
    } else {
      assert r[half - 1] <= r[half];
      UpToInside(r, 0, half, (r[half - 1] + r[half]) / 2.0);
    }
  }

  /** At least half of a sample does not exceed its median. */
  lemma HalfUpToMedian(s: seq<real>)
    requires s != []
    ensures 2 * CountUpTo(s, Median(s)) >= |s|
  {
    SortAscending(s);
    CountSort(s, Median(s));
    HalfUpToMiddle(Sort(s));
  }

  function CountKept(values: seq<Float>, center: real, threshold: real): nat {
    if values == [] then 0
    else
      var n := |values| - 1;
      CountKept(values[..n], center, threshold) + if IsKept(values[n], center, threshold) then 1 else 0
  }

  lemma CountUpToAppend(d: seq<real>, x: real, v: real)
    ensures CountUpTo(d + [x], v) == CountUpTo(d, v) + if x <= v then 1 else 0
  {
    assert (d + [x])[..|d|] == d;
  }

  lemma {:induction false} CountKeptIs(values: seq<Float>, center: real, threshold: real)
    ensures CountKept(values, center, threshold) == CountUpTo(Deviations(Finite(values), center), threshold)
  {
    if values != [] {
      var n := |values| - 1;
      var front := Finite(values[..n]);
      CountKeptIs(values[..n], center, threshold);
      match values[n] {
        case NonFinite =>
          assert front + [] == front;
        case Fin(v) =>
          DeviationsAppend(front, v, center);
          CountUpToAppend(Deviations(front, center), Abs(v - center), threshold);
      }
    }
  }

  lemma {:induction false} KeptIsCount(rule: Rule, values: seq<Float>, n: nat, c: real, threshold: real)
    requires rule.Valid() && n <= |values|
    requires forall i: nat :: i < |values| ==> Phase1(rule, values, i) == IsKept(values[i], c, threshold)
    ensures KeptCount(rule, values, n) == CountKept(values[..n], c, threshold)
  {
    hide Phase1, IsKept;
    if n > 0 {
      KeptIsCount(rule, values, n - 1, c, threshold);
      assert values[..n][..n - 1] == values[..n - 1];
    }
  }

  lemma {:induction false} AllFiniteKept(rule: Rule, values: seq<Float>, n: nat)
    requires rule.Valid() && n <= |values| && PixelMad(rule, values).NonFinite?
    ensures KeptCount(rule, values, n) == |Finite(values[..n])|
  {
    if n > 0 {
      AllFiniteKept(rule, values, n - 1);
      assert values[..n][..n - 1] == values[..n - 1];
    }
  }

  /** A threshold of at least one MAD: sigmaClip robust sigmas cover it. */
  lemma ThresholdCoversMad(rule: Rule, mad: real, c: real)
    requires rule.Valid() && SIGMA_PER_MAD * rule.sigmaClip >= 1.0 && mad >= 0.0
    ensures rule.Threshold(SIGMA_PER_MAD * mad, c) >= mad
  {
    var sigma := Max(Max(SIGMA_PER_MAD * mad, rule.groupSigmaFloor), rule.NumericalFloor(c));
    assert sigma >= SIGMA_PER_MAD * mad;
    ScaleUp(rule.sigmaClip, SIGMA_PER_MAD * mad, sigma);
    ScaleUp(mad, 1.0, SIGMA_PER_MAD * rule.sigmaClip);
  }

  lemma ScaleUp(k: real, a: real, b: real)
    requires k >= 0.0 && a <= b
    ensures k * a <= k * b
  {}

  lemma MadNonNegative(s: seq<real>, c: real)
    requires s != []
    ensures Mad(s, c) >= 0.0
  {
    SortBounds(Deviations(s, c), 0.0);
  }

  /** With a clip of at least one MAD, phase 1 keeps at least half of the finite samples of every pixel. */
  lemma KeepsHalf(rule: Rule, values: seq<Float>)
    requires rule.Valid() && SIGMA_PER_MAD * rule.sigmaClip >= 1.0
    ensures 2 * KeptCount(rule, values, |values|) >= |Finite(values)|
  {
    assert values[..|values|] == values;
    if PixelMad(rule, values).NonFinite? {
      AllFiniteKept(rule, values, |values|);
    } else {
      var s := Finite(values);
      var c := Median(s);
      var mad := Mad(s, c);
      var threshold := rule.Threshold(SIGMA_PER_MAD * mad, c);
      KeptIsCount(rule, values, |values|, c, threshold);
      CountKeptIs(values, c, threshold);
      hide Median, Sort, Rule.Threshold, KeptCount, CountKept, CountUpTo, Finite, PixelMad, IsKept, Phase1;
      HalfUpToMedian(Deviations(s, c));
      MadNonNegative(s, c);
      ThresholdCoversMad(rule, mad, c);
      CountMonotone(Deviations(s, c), mad, threshold);
    }
  }

  /** `n` samples, half at -d and half at d; an odd number leaves one at 0. */
  function TwoSided(n: nat, d: real): seq<Float> {
    seq(n, i => Fin(Side(n, d, i)))
  }

  function Side(n: nat, d: real, i: int): real {
    if 2 * i + 1 < n then -d else if 2 * i + 1 > n then d else 0.0
  }

  function TwoSidedReals(n: nat, d: real): seq<real> {
    seq(n, i => Side(n, d, i))
  }

  lemma {:induction false} FiniteOfAll(values: seq<Float>, s: seq<real>)
    requires |values| == |s| && forall i :: 0 <= i < |s| ==> values[i] == Fin(s[i])
    ensures Finite(values) == s
  {
    if s != [] {
      var n := |s| - 1;
      FiniteOfAll(values[..n], s[..n]);
      assert s == s[..n] + [s[n]];
    }
  }

  lemma MedianOfAscending(s: seq<real>)
    requires s != [] && Ascending(s)
    ensures Median(s) == Middle(s)
  {
    SortIs(s, s);
  }

  lemma TwoSidedMedian(n: nat, d: real)
    requires n > 0 && d > 0.0
    ensures Median(TwoSidedReals(n, d)) == 0.0
  {
    var s := TwoSidedReals(n, d);
    MedianOfAscending(s);
    hide Median;
    if n % 2 == 0 {
      assert s[n / 2 - 1] == -d && s[n / 2] == d;
    } else {
      assert s[n / 2] == 0.0;
    }
  }

  /** All deviations are d but that of a middle value. */
  lemma TwoSidedMad(n: nat, d: real)
    requires n > 1 && d > 0.0
    ensures Mad(TwoSidedReals(n, d), 0.0) == d
  {
    hide Median, CountBelow, CountUpTo;
    var e := Deviations(TwoSidedReals(n, d), 0.0);
    BelowInside(e, n / 2, if n % 2 == 0 then n / 2 else n / 2 + 1, d);
    UpToInside(e, 0, n, d);
    MedianFromCounts(e, d);
  }

  lemma TwoSidedStatistics(n: nat, d: real)
    requires n > 1 && d > 0.0
    ensures Finite(TwoSided(n, d)) == TwoSidedReals(n, d)
    ensures Median(TwoSidedReals(n, d)) == 0.0 && Mad(TwoSidedReals(n, d), 0.0) == d
  {
    FiniteOfAll(TwoSided(n, d), TwoSidedReals(n, d));
    TwoSidedMedian(n, d);
    TwoSidedMad(n, d);
  }

  /** When at most the sample at `k` is kept, at most one is. */
  lemma {:induction false} FewKept(values: seq<Float>, center: real, threshold: real, k: nat)
    requires forall i :: 0 <= i < |values| && i != k ==> !IsKept(values[i], center, threshold)
    ensures CountKept(values, center, threshold) <= if k < |values| then 1 else 0
  {
    if values != [] {
      FewKept(values[..|values| - 1], center, threshold, k);
    }
  }

  /** A spread so wide that the floors do not matter. */
  function WideSpread(rule: Rule): real {
    1.0 + rule.groupSigmaFloor + rule.absoluteFloor + rule.epsilonFloor
  }

  lemma WidePositive(rule: Rule)
    requires rule.Valid()
    ensures WideSpread(rule) > 0.0
  {}

  /** With a smaller clip a wide two-sided sample loses every value but the one at its centre. */
  lemma SmallClipRejectsAll(rule: Rule, n: nat)
    requires rule.Valid() && SIGMA_PER_MAD * rule.sigmaClip < 1.0 && n >= rule.minimumFrames
    ensures var values := TwoSided(n, WideSpread(rule));
        KeptCount(rule, values, |values|) <= n % 2 && |Finite(values)| == n
  {
    hide Median, Mad, Sort, Finite, Rule.Threshold, KeptCount, CountKept, WideSpread, IsKept;
    var d := WideSpread(rule);
    WidePositive(rule);
    var values := TwoSided(n, d);
    TwoSidedStatistics(n, d);
    var threshold := rule.Threshold(SIGMA_PER_MAD * d, 0.0);
    SmallThreshold(rule, d);
    assert PixelMad(rule, values) == Fin(d);
    var k := if n % 2 == 0 then n else n / 2;
    forall i: nat | i < n && i != k
      ensures !IsKept(values[i], 0.0, threshold)
    {
      SideIsFar(n, d, i, k, threshold);
    }
    KeptIsCount(rule, values, n, 0.0, threshold);
    assert values[..n] == values;
    FewKept(values, 0.0, threshold, k);
  }

  lemma SideIsFar(n: nat, d: real, i: nat, k: nat, threshold: real)
    requires i < n && i != k && k == (if n % 2 == 0 then n else n / 2) && threshold < d
    ensures !IsKept(Fin(Side(n, d, i)), 0.0, threshold)
  {}

  lemma SmallThreshold(rule: Rule, d: real)
    requires rule.Valid() && SIGMA_PER_MAD * rule.sigmaClip < 1.0 && d == WideSpread(rule)
    ensures rule.Threshold(SIGMA_PER_MAD * d, 0.0) < d
  {
    ThresholdAboveFloors(rule, SIGMA_PER_MAD * d);
    ClipOfSpread(rule.sigmaClip, d, SIGMA_PER_MAD * d);
  }

  lemma ThresholdAboveFloors(rule: Rule, sigma: real)
    requires rule.Valid() && sigma >= WideSpread(rule)
    ensures rule.Threshold(sigma, 0.0) == rule.sigmaClip * sigma
  {
    assert Max(1.0, Abs(0.0)) == 1.0 && rule.epsilonFloor * 1.0 == rule.epsilonFloor;
  }

  lemma ClipOfSpread(k: real, d: real, sigma: real)
    requires d > 0.0 && SIGMA_PER_MAD * k < 1.0 && sigma == SIGMA_PER_MAD * d
    ensures k * sigma < d
  {
    assert d - k * (SIGMA_PER_MAD * d) == d * (1.0 - SIGMA_PER_MAD * k);
    Positive(d, 1.0 - SIGMA_PER_MAD * k);
  }

  lemma Positive(a: real, b: real)
    requires a > 0.0 && b > 0.0
    ensures a * b > 0.0
  {}

  /**
   Over the stacks that Validate accepts, phase 1 keeps at least half of the finite samples of every pixel exactly
   when the clip covers one MAD or no stack has frames enough for a decision.
   */
  lemma KeepsHalfIff(rule: Rule)
    requires rule.Valid()
    ensures SIGMA_PER_MAD * rule.sigmaClip >= 1.0 || rule.minimumFrames > MAXIMUM_FRAMES
        <==> forall values :: |values| <= MAXIMUM_FRAMES ==> 2 * KeptCount(rule, values, |values|) >= |Finite(values)|
  {
    if SIGMA_PER_MAD * rule.sigmaClip >= 1.0 {
      forall values
        ensures 2 * KeptCount(rule, values, |values|) >= |Finite(values)|
      {
        KeepsHalf(rule, values);
      }
    } else if rule.minimumFrames > MAXIMUM_FRAMES {
      forall values | |values| <= MAXIMUM_FRAMES
        ensures 2 * KeptCount(rule, values, |values|) >= |Finite(values)|
      {
        AllFiniteKept(rule, values, |values|);
        assert values[..|values|] == values;
      }
    } else {
      SmallClipRejectsAll(rule, rule.minimumFrames);
      assert |TwoSided(rule.minimumFrames, WideSpread(rule))| <= MAXIMUM_FRAMES;
    }
  }

  // ----- phase 2 against phase 1 -----

  lemma RootAtLeast(root: real -> real, x: real, y: real)
    requires IsRoot(root) && x >= 0.0 && y >= x * x && y >= 0.0
    ensures root(y) >= x
  {
    var r := root(y);
    RootOf(root, y, r);
    if r < x {
      SquareOrder(r, x);
    }
  }

  lemma RootOf(root: real -> real, y: real, r: real)
    requires IsRoot(root) && y >= 0.0 && r == root(y)
    ensures r >= 0.0 && r * r == y
  {}

  lemma RootIs(root: real -> real, x: real, y: real)
    requires IsRoot(root) && x >= 0.0 && y == x * x
    ensures root(y) == x
  {
    hide IsRoot;
    SquarePositive(x);
    RootAtLeast(root, x, y);
    var r := root(y);
    RootOf(root, y, r);
    if r > x {
      SquareOrder(x, r);
    }
  }

  lemma FrameSigmaIs(root: real -> real, scale: real, robust: real, pool: real, scaled: real, r: real, p: real)
    requires scaled == scale * pool * (scale * pool) && r == robust * robust && p == pool * pool
    ensures FrameSigma(root, scale, robust, pool) == root(scaled + Max(r - p, 0.0))
  {
    hide Max;
  }

  /** A frame scale of at least 1 never gives less than the pixel's own robust sigma. */
  lemma FrameSigmaCovers(root: real -> real, scale: real, robust: real, pool: real)
    requires IsRoot(root) && scale >= 1.0 && robust >= 0.0
    ensures FrameSigma(root, scale, robust, pool) >= robust
  {
    hide *;
    var scaled, r, p := scale * pool * (scale * pool), robust * robust, pool * pool;
    ScaledSquare(scale, pool, scaled, p);
    SquarePositive(robust);
    ExcessCovers(scaled, r, p);
    FrameSigmaIs(root, scale, robust, pool, scaled, r, p);
    RootAtLeast(root, robust, scaled + Max(r - p, 0.0));
  }

  lemma ExcessCovers(scaled: real, robust: real, pool: real)
    requires scaled >= pool
    ensures scaled + Max(robust - pool, 0.0) >= robust
  {}

  lemma SquarePositive(x: real)
    ensures x * x >= 0.0
  {}

  lemma ScaledSquare(scale: real, pool: real, scaled: real, p: real)
    requires scale >= 1.0 && scaled == scale * pool * (scale * pool) && p == pool * pool
    ensures scaled >= p
  {
    var k := scale * scale;
    SquarePositive(pool);
    ScaleUp(scale, 1.0, scale);
    ScaleUp(p, 1.0, k);
    assert scaled == p * k;
  }

  lemma ThresholdMonotone(rule: Rule, a: real, b: real, c: real)
    requires rule.Valid() && a <= b
    ensures rule.Threshold(a, c) <= rule.Threshold(b, c)
  {
    ScaleUp(rule.sigmaClip, Max(Max(a, rule.groupSigmaFloor), rule.NumericalFloor(c)),
            Max(Max(b, rule.groupSigmaFloor), rule.NumericalFloor(c)));
  }

  lemma MadOfPixel(rule: Rule, values: seq<Float>)
    requires PixelMad(rule, values).Fin?
    ensures Finite(values) != [] && PixelMad(rule, values).value >= 0.0
  {
    MadNonNegative(Finite(values), Median(Finite(values)));
    hide Median, Finite, Mad;
  }

  /** When the frame's scale is at least 1, the scale model accepts every sample that phase 1 accepts. */
  lemma Phase2AcceptsMore(rule: Rule, root: real -> real, scale: real, pooledMad: real, values: seq<Float>, frame: nat)
    requires rule.Valid() && IsRoot(root) && scale >= 1.0 && frame < |values|
    ensures Phase1(rule, values, frame) ==> Phase2(rule, root, scale, pooledMad, values, frame)
  {
    if PixelMad(rule, values).Fin? {
      hide Median, Finite, FrameSigma, Rule.Threshold, PixelMad, IsKept;
      MadOfPixel(rule, values);
      var c, mad := Median(Finite(values)), PixelMad(rule, values).value;
      var sigma := FrameSigma(root, scale, SIGMA_PER_MAD * mad, SIGMA_PER_MAD * pooledMad);
      FrameSigmaCovers(root, scale, SIGMA_PER_MAD * mad, SIGMA_PER_MAD * pooledMad);
      ThresholdMonotone(rule, SIGMA_PER_MAD * mad, sigma, c);
      KeptMore(values[frame], c, rule.Threshold(SIGMA_PER_MAD * mad, c), rule.Threshold(sigma, c));
    }
  }

  lemma KeptMore(value: Float, c: real, a: real, b: real)
    requires a <= b
    ensures IsKept(value, c, a) ==> IsKept(value, c, b)
  {}

  // ----- and only then -----

  /** About half at -d, one at the centre, one at t, the rest at d. */
  function Leaning(h: nat, d: real, t: real, i: int): real {
    if i < h then -d else if i == h then 0.0 else if i == h + 1 then t else d
  }

  function LeaningReals(h: nat, d: real, t: real): seq<real> {
    seq(2 * h + 1, i => Leaning(h, d, t, i))
  }

  function LeaningStack(h: nat, d: real, t: real): seq<Float> {
    seq(2 * h + 1, i => Fin(Leaning(h, d, t, i)))
  }

  lemma LeaningMedian(h: nat, d: real, t: real)
    requires d > 0.0 && t > 0.0
    ensures Median(LeaningReals(h, d, t)) == 0.0
  {
    hide Median, CountBelow, CountUpTo;
    var s := LeaningReals(h, d, t);
    BelowInside(s, 0, h, 0.0);
    UpToInside(s, 0, h + 1, 0.0);
    MedianFromCounts(s, 0.0);
  }

  lemma LeaningMad(h: nat, d: real, t: real)
    requires h >= 2 && d > 0.0 && t > 0.0
    ensures Mad(LeaningReals(h, d, t), 0.0) == d
  {
    hide Median, CountBelow, CountUpTo;
    var e := Deviations(LeaningReals(h, d, t), 0.0);
    BelowInside(e, h, h + 2, d);
    UpToInside(e, 0, h + 1, d);
    MedianFromCounts(e, d);
  }

  /** Wherever t > 0 lies, the median is 0 and the deviation d. */
  lemma LeaningStatistics(h: nat, d: real, t: real)
    requires h >= 2 && d > 0.0 && t > 0.0
    ensures Finite(LeaningStack(h, d, t)) == LeaningReals(h, d, t)
    ensures Median(LeaningReals(h, d, t)) == 0.0 && Mad(LeaningReals(h, d, t), 0.0) == d
  {
    hide Median, Mad, Finite, Leaning;
    FiniteOfAll(LeaningStack(h, d, t), LeaningReals(h, d, t));
    LeaningMedian(h, d, t);
    LeaningMad(h, d, t);
  }

  /** With the pixel's own deviation as the pool the frame's noise is scaled. */
  lemma ScaledSigma(root: real -> real, scale: real, sigma: real)
    requires IsRoot(root) && scale > 0.0 && sigma > 0.0
    ensures FrameSigma(root, scale, sigma, sigma) == scale * sigma
  {
    var scaled, square := scale * sigma, sigma * sigma;
    FrameSigmaIs(root, scale, sigma, sigma, scaled * scaled, square, square);
    Positive(scale, sigma);
    hide IsRoot, FrameSigma;
    RootIs(root, scaled, scaled * scaled);
  }

  lemma LessClip(k: real, a: real, b: real)
    requires k > 0.0 && a < b
    ensures k * a < k * b
  {
    Positive(k, b - a);
  }

  /** A noise below the spread gives a threshold below the one of the spread itself. */
  lemma SmallerThreshold(rule: Rule, sigma: real, wide: real)
    requires rule.Valid() && sigma < wide && wide >= WideSpread(rule)
    ensures rule.Threshold(sigma, 0.0) < rule.Threshold(wide, 0.0) == rule.sigmaClip * wide
  {
    ThresholdAboveFloors(rule, wide);
    var floors := Floored(rule, sigma);
    FlooredBelow(rule, sigma, wide);
    LessClip(rule.sigmaClip, floors, wide);
    ThresholdIs(rule, sigma, floors);
    hide Rule.Threshold, WideSpread, Floored;
  }

  /** The noise about the centre 0 and the floors below it. */
  function Floored(rule: Rule, sigma: real): real {
    Max(Max(sigma, rule.groupSigmaFloor), rule.NumericalFloor(0.0))
  }

  lemma ThresholdIs(rule: Rule, sigma: real, m: real)
    requires m == Floored(rule, sigma)
    ensures rule.Threshold(sigma, 0.0) == rule.sigmaClip * m
  {
    hide Max, Rule.NumericalFloor;
  }

  lemma FlooredBelow(rule: Rule, sigma: real, wide: real)
    requires rule.Valid() && sigma < wide && wide >= WideSpread(rule)
    ensures Floored(rule, sigma) < wide
  {
    assert Max(1.0, Abs(0.0)) == 1.0 && rule.epsilonFloor * 1.0 == rule.epsilonFloor;
  }

  /** Scales below 1 reject a sample that lies on the threshold of phase 1. */
  lemma BorderlineLost(rule: Rule, root: real -> real, scale: real, h: nat, d: real, sigma: real, t: real)
    requires rule.Valid() && IsRoot(root) && 0.0 < scale < 1.0 && h >= 2 && 2 * h + 1 >= rule.minimumFrames
    requires d == WideSpread(rule) && sigma == SIGMA_PER_MAD * d && t == rule.sigmaClip * sigma
    ensures var values := LeaningStack(h, d, t);
      Phase1(rule, values, h + 1) && !Phase2(rule, root, scale, d, values, h + 1)
  {
    var values := LeaningStack(h, d, t);
    WidePositive(rule);
    Positive(rule.sigmaClip, sigma);
    LeaningStatistics(h, d, t);
    hide Median, Mad, Finite, Rule.Threshold, FrameSigma, WideSpread, Max;
    assert PixelMad(rule, values) == Fin(d);
    ScaledSigma(root, scale, sigma);
    LessClip(sigma, scale, 1.0);
    assert sigma * scale == scale * sigma;
    SmallerThreshold(rule, scale * sigma, sigma);
    assert values[h + 1] == Fin(t);
  }

  /**
   Over the stacks that Validate accepts, the scale model accepts whatever phase 1 does, for every pool, exactly when
   the frame's scale is at least 1 or no stack has frames enough for a decision.
   */
  lemma AcceptsMoreIff(rule: Rule, root: real -> real, scale: real)
    requires rule.Valid() && IsRoot(root) && scale > 0.0
    ensures scale >= 1.0 || rule.minimumFrames > MAXIMUM_FRAMES
        <==> forall pooledMad, values, frame: nat :: frame < |values| <= MAXIMUM_FRAMES && Phase1(rule, values, frame)
               ==> Phase2(rule, root, scale, pooledMad, values, frame)
  {
    hide Phase1, Phase2, IsRoot, WideSpread;
    if scale >= 1.0 {
      forall pooledMad, values, frame: nat | frame < |values| <= MAXIMUM_FRAMES && Phase1(rule, values, frame)
        ensures Phase2(rule, root, scale, pooledMad, values, frame)
      {
        Phase2AcceptsMore(rule, root, scale, pooledMad, values, frame);
      }
    } else if rule.minimumFrames > MAXIMUM_FRAMES {
      forall pooledMad, values, frame: nat | frame < |values| <= MAXIMUM_FRAMES && Phase1(rule, values, frame)
        ensures Phase2(rule, root, scale, pooledMad, values, frame)
      {
        NoDecision(rule, root, scale, pooledMad, values, frame);
      }
    } else {
      var h: nat := if rule.minimumFrames <= 5 then 2 else rule.minimumFrames / 2;
      var d := WideSpread(rule);
      var sigma := SIGMA_PER_MAD * d;
      BorderlineLost(rule, root, scale, h, d, sigma, rule.sigmaClip * sigma);
      assert |LeaningStack(h, d, rule.sigmaClip * sigma)| <= MAXIMUM_FRAMES;
    }
  }

  /** With too few frames for a decision both phases accept the finite samples. */
  lemma NoDecision(rule: Rule, root: real -> real, scale: real, pooledMad: real, values: seq<Float>, frame: nat)
    requires rule.Valid() && frame < |values| < rule.minimumFrames
    ensures Phase1(rule, values, frame) == Phase2(rule, root, scale, pooledMad, values, frame)
  {
    hide Finite, Median, FrameSigma, Rule.Threshold;
  }

  lemma NeutralSigma(root: real -> real, sigma: real)
    requires IsRoot(root) && sigma >= 0.0
    ensures FrameSigma(root, 1.0, sigma, sigma) == sigma
  {
    var square := sigma * sigma;
    FrameSigmaIs(root, 1.0, sigma, sigma, square, square, square);
    hide IsRoot, FrameSigma;
    RootIs(root, sigma, square);
  }

  /** With the pixel's own MAD as the pool and unit scale, the scale model decides exactly as phase 1. */
  lemma NeutralScaleModel(rule: Rule, root: real -> real, values: seq<Float>, frame: nat)
    requires rule.Valid() && IsRoot(root) && frame < |values|
    ensures PixelMad(rule, values).Fin? ==>
        Phase2(rule, root, 1.0, PixelMad(rule, values).value, values, frame) == Phase1(rule, values, frame)
  {
    if PixelMad(rule, values).Fin? {
      hide Median, Finite, FrameSigma, IsKept, Rule.Threshold, PixelMad;
      MadOfPixel(rule, values);
      NeutralSigma(root, SIGMA_PER_MAD * PixelMad(rule, values).value);
    }
  }

  /** A window of half width 0 holds the pixel's own MAD, so pooling is then the identity. */
  lemma NoPooling(madMap: seq<Float>, width: nat, pixel: nat, rows: nat)
    requires width > 0 && |madMap| == rows * width && pixel < |madMap| && madMap[pixel].Fin?
    ensures PooledMad(madMap, width, 0, pixel, rows) == madMap[pixel].value
  {
    var column := pixel % width;
    assert First(column, 0) == column && End(column, 0, width) == column + 1;
    assert madMap[pixel..pixel + 1] == [madMap[pixel]];
    FiniteAppend([], madMap[pixel]);
    assert [] + [madMap[pixel]] == [madMap[pixel]];
    assert Finite([madMap[pixel]]) == [madMap[pixel].value];
    MedianOfOne(madMap[pixel].value);
  }

  lemma MedianOfOne(v: real)
    ensures Median([v]) == v
  {
    SortIs([v], [v]);
  }
}
