/**
 The two passes of MadRejectionMask (native/src/PortableKernels.cpp) over a stack of frames: per pixel the
 median and MAD, then either the phase 1 decisions or, with the scale model, the pooled ones.
 */
module MadKernel {
  import opened OrderStatistics
  import opened PooledWindow
  import opened MadRejection
  import opened Reals

  datatype Request = Request(rule: Rule, frameScales: seq<real>, poolHalfWidth: nat, root: real -> real) {

    ghost predicate Valid(frames: nat) {
      && rule.Valid()
      && (frameScales == [] || |frameScales| == frames)
      && (forall i :: 0 <= i < |frameScales| ==> frameScales[i] > 0.0)
    }

    predicate UsesScaleModel() {
      poolHalfWidth > 0 || exists i :: 0 <= i < |frameScales| && frameScales[i] != 1.0
    }

    function Scale(frame: nat): real
      requires frameScales == [] || frame < |frameScales|
    {
      if frameScales == [] then 1.0 else frameScales[frame]
    }
  }

  /** The samples of one pixel over the frames. */
  function Column(samples: array2<Float>, pixel: nat): (values: seq<Float>)
    requires pixel < samples.Length1
    reads samples
    ensures |values| == samples.Length0
  {
    seq(samples.Length0, frame requires 0 <= frame < samples.Length0 reads samples => samples[frame, pixel])
  }

  /** Every pixel's MAD. */
  ghost function MadMap(rule: Rule, samples: array2<Float>): seq<Float>
    reads samples
  {
    seq(samples.Length1,
        pixel requires 0 <= pixel < samples.Length1 reads samples => PixelMad(rule, Column(samples, pixel)))
  }

  /** Whether this request decides by the pooled scale model. */
  predicate Scaled(req: Request, frames: nat) {
    frames >= req.rule.minimumFrames && req.UsesScaleModel()
  }

  /** The acceptance of one sample. */
  ghost function Decision(req: Request, samples: array2<Float>, width: nat, rows: nat, frame: nat, pixel: nat): bool
    requires req.Valid(samples.Length0) && width > 0 && samples.Length1 == rows * width
    requires frame < samples.Length0 && pixel < samples.Length1
    reads samples
  {
    var values, madMap := Column(samples, pixel), MadMap(req.rule, samples);
    if Scaled(req, samples.Length0)
    then ScaledDecision(req, madMap, width, rows, values, frame, pixel)
    else Phase1(req.rule, values, frame)
  }

  ghost function ScaledDecision(req: Request, madMap: seq<Float>, width: nat, rows: nat, values: seq<Float>, frame: nat,
                                pixel: nat): bool
    requires req.rule.Valid() && width > 0 && |madMap| == rows * width && pixel < |madMap| && frame < |values|
    requires req.frameScales == [] || frame < |req.frameScales|
  {
    var pooled := if madMap[pixel].Fin? then PooledMad(madMap, width, req.poolHalfWidth, pixel, rows) else 0.0;
    Phase2(req.rule, req.root, req.Scale(frame), pooled, values, frame)
  }

  // ----- one pixel -----

  lemma NoneFinite(values: seq<Float>)
    requires values == []
    ensures Finite(values) == []
  {}

  lemma FiniteNext(values: seq<Float>, frame: nat)
    requires frame < |values|
    ensures Finite(values[..frame + 1])
         == Finite(values[..frame]) + if values[frame].Fin? then [values[frame].value] else []
  {
    FiniteAppend(values[..frame], values[frame]);
    assert values[..frame + 1] == values[..frame] + [values[frame]];
    hide Finite;
  }

  method CollectFinite(values: seq<Float>, scratch: array<real>) returns (count: nat)
    requires scratch.Length == |values|
    modifies scratch
    ensures count <= scratch.Length && scratch[..count] == Finite(values)
  {
    hide Finite;
    count := 0;
    NoneFinite(values[..0]);
    for frame := 0 to |values|
      invariant count <= frame && scratch[..count] == Finite(values[..frame])
    {
      FiniteNext(values, frame);
      match values[frame] {
        case Fin(v) =>
          scratch[count] := v;
          count := count + 1;
          assert scratch[..count] == Finite(values[..frame]) + [v];
        case NonFinite =>
      }
    }
    assert values[..|values|] == values;
  }

  /** The centre and the MAD of one pixel. */
  method CenterAndMad(rule: Rule, values: seq<Float>) returns (center: Float, mad: Float)
    requires rule.Valid()
    ensures center == Center(values) && mad == PixelMad(rule, values)
  {
    hide Finite, Median, Mad;
    var scratch := new real[|values|];
    var count := CollectFinite(values, scratch);
    center := NonFinite;
    if count > 0 {
      var median := SortedMedianOfFinite(scratch, count);
      center := Fin(median);
    }
    if |values| < rule.minimumFrames || count < rule.minimumFrames {
      return center, NonFinite;
    }
    var m := PixelDeviation(Finite(values), scratch, count, center.value);
    mad := Fin(m);
  }

  /** The MAD from the sorted sample when it is short, or by selection from all deviations. */
  method PixelDeviation(ghost s: seq<real>, scratch: array<real>, count: nat, center: real) returns (mad: real)
    requires 0 < count <= scratch.Length && multiset(scratch[..count]) == multiset(s)
    requires count <= SORTED_MEDIAN_MAXIMUM_COUNT ==> scratch[..count] == Sort(s)
    modifies scratch
    ensures s != [] && mad == Mad(s, center)
  {
    hide Sort, Median;
    assert |multiset(s)| == |s| && |multiset(scratch[..count])| == count;
    MadOfPermutation(s, scratch[..count], center);
    if count <= SORTED_MEDIAN_MAXIMUM_COUNT {
      SortAscending(s);
      mad := SortedMadOfFinite(scratch, count, center);
      return;
    }
    ghost var values := scratch[..count];
    for i := 0 to count
      invariant forall j :: 0 <= j < i ==> scratch[j] == Abs(values[j] - center)
      invariant forall j :: i <= j < count ==> scratch[j] == values[j]
    {
      scratch[i] := Abs(scratch[i] - center);
    }
    assert scratch[..count] == Deviations(values, center);
    mad := MedianOfFinite(scratch, count);
  }

  /** Phase 1 decisions of one pixel. */
  method DecidePixel(rule: Rule, values: seq<Float>, center: Float, mad: Float) returns (flags: seq<bool>)
    requires rule.Valid() && center == Center(values) && mad == PixelMad(rule, values)
    ensures |flags| == |values| && forall i: nat :: i < |values| ==> flags[i] == Phase1(rule, values, i)
  {
    hide Finite, Median, Mad, IsKept, Rule.Threshold;
    flags := [];
    if mad.NonFinite? {
      flags := seq(|values|, i requires 0 <= i < |values| => values[i].Fin?);
      return;
    }
    var threshold := rule.Threshold(SIGMA_PER_MAD * mad.value, center.value);
    for i := 0 to |values|
      invariant |flags| == i && forall j: nat :: j < i ==> flags[j] == Phase1(rule, values, j)
    {
      flags := flags + [IsKept(values[i], center.value, threshold)];
    }
  }

  /** Phase 2 decisions of one pixel whose MAD is finite. */
  method DecideScaledPixel(req: Request, values: seq<Float>, center: Float, mad: Float, pooledMad: real)
    returns (flags: seq<bool>)
    requires req.Valid(|values|) && center == Center(values) && mad == PixelMad(req.rule, values) && mad.Fin?
    ensures |flags| == |values|
    ensures forall i: nat :: i < |values| ==> flags[i] == Phase2(req.rule, req.root, req.Scale(i), pooledMad, values, i)
  {
    hide Finite, Median, Mad, IsKept, Rule.Threshold, FrameSigma;
    flags := [];
    for i := 0 to |values|
      invariant |flags| == i
      invariant forall j: nat :: j < i ==> flags[j] == Phase2(req.rule, req.root, req.Scale(j), pooledMad, values, j)
    {
      var sigma := FrameSigma(req.root, req.Scale(i), SIGMA_PER_MAD * mad.value, SIGMA_PER_MAD * pooledMad);
      flags := flags + [IsKept(values[i], center.value, req.rule.Threshold(sigma, center.value))];
    }
  }

  // ----- the stack -----

  method StoreFlags(accepted: array2<bool>, pixel: nat, flags: seq<bool>)
    requires pixel < accepted.Length1 && |flags| == accepted.Length0
    modifies accepted
    ensures forall f: nat :: f < accepted.Length0 ==> accepted[f, pixel] == flags[f]
    ensures forall f: nat, p: nat :: f < accepted.Length0 && p < accepted.Length1 && p != pixel ==>
      accepted[f, p] == old(accepted[f, p])
  {
    for frame := 0 to accepted.Length0
      invariant forall f: nat :: f < frame ==> accepted[f, pixel] == flags[f]
      invariant forall f: nat, p: nat :: f < accepted.Length0 && p < accepted.Length1 && p != pixel ==>
        accepted[f, p] == old(accepted[f, p])
    {
      accepted[frame, pixel] := flags[frame];
    }
  }

  /**
   ScaledRejectionDecisions for one claimed range of pixels: a fresh window, and decisions that depend
   only on the pixel, so they are the same however the pixels are split into ranges.
   */
  method ScaledRange(req: Request, samples: array2<Float>, madMap: seq<Float>, center: array<Float>, width: nat,
                     ghost rows: nat,
                     begin: nat, end: nat, accepted: array2<bool>)
    requires req.Valid(samples.Length0) && width > 0 && samples.Length1 == rows * width
      && begin <= end <= samples.Length1
    requires accepted.Length0 == samples.Length0 && accepted.Length1 == samples.Length1 == center.Length
    requires |madMap| == samples.Length1
    requires forall p: nat :: p < |madMap| ==>
      madMap[p] == PixelMad(req.rule, Column(samples, p)) && center[p] == Center(Column(samples, p))
    modifies accepted
    ensures forall f: nat, p: nat :: f < accepted.Length0 && begin <= p < end ==>
        accepted[f, p] == ScaledDecision(req, madMap, width, rows, Column(samples, p), f, p)
    ensures forall f: nat, p: nat :: f < accepted.Length0 && p < accepted.Length1 && !(begin <= p < end) ==>
      accepted[f, p] == old(accepted[f, p])
  {
    hide PixelMad, Center, Phase2, PooledMad, Column;
    var window := new PooledMadWindow(madMap, width, req.poolHalfWidth);
    for pixel := begin to end
      invariant window.Valid() && fresh(window)
      invariant forall f: nat, p: nat :: f < accepted.Length0 && begin <= p < pixel ==>
          accepted[f, p] == ScaledDecision(req, madMap, width, rows, Column(samples, p), f, p)
      invariant forall f: nat, p: nat :: f < accepted.Length0 && p < accepted.Length1 && !(begin <= p < pixel) ==>
        accepted[f, p] == old(accepted[f, p])
    {
      var flags := ScaledFlags(req, samples, madMap, center, width, rows, pixel, window);
      StoreFlags(accepted, pixel, flags);
    }
  }

  method ScaledFlags(req: Request, samples: array2<Float>, madMap: seq<Float>, center: array<Float>, width: nat,
                     ghost rows: nat,
                     pixel: nat, window: PooledMadWindow) returns (flags: seq<bool>)
    requires req.Valid(samples.Length0) && width > 0 && samples.Length1 == rows * width
      && pixel < samples.Length1 == center.Length
    requires |madMap| == samples.Length1
    requires madMap[pixel] == PixelMad(req.rule, Column(samples, pixel))
      && center[pixel] == Center(Column(samples, pixel))
    requires window.Valid() && window.madMap == madMap && window.width == width && window.halfWidth == req.poolHalfWidth
    modifies window
    ensures window.Valid() && |flags| == samples.Length0
    ensures forall f: nat :: f < samples.Length0 ==>
        flags[f] == ScaledDecision(req, madMap, width, rows, Column(samples, pixel), f, pixel)
  {
    hide PixelMad, Center, PooledMad, IsKept;
    var values := Column(samples, pixel);
    if madMap[pixel].NonFinite? {
      flags := seq(|values|, i requires 0 <= i < |values| => values[i].Fin?);
      return;
    }
    var pooled := window.MedianAt(pixel, rows);
    flags := DecideScaledPixel(req, values, center[pixel], madMap[pixel], pooled);
  }

  /** Phase 1 over the stack: every centre and MAD, and the decisions unless the scale model will make them. */
  method FirstPass(req: Request, samples: array2<Float>, accepted: array2<bool>, center: array<Float>)
    returns (madMap: seq<Float>)
    requires req.Valid(samples.Length0)
    requires accepted.Length0 == samples.Length0 && accepted.Length1 == samples.Length1 == center.Length
    modifies accepted, center
    ensures |madMap| == samples.Length1
    ensures forall p: nat :: p < |madMap| ==>
      madMap[p] == PixelMad(req.rule, Column(samples, p)) && center[p] == Center(Column(samples, p))
    ensures !Scaled(req, samples.Length0) ==> forall f: nat, p: nat :: f < accepted.Length0 && p < accepted.Length1 ==>
        accepted[f, p] == Phase1(req.rule, Column(samples, p), f)
  {
    hide PixelMad, Center, Phase1;
    madMap := [];
    var scaled := Scaled(req, samples.Length0);
    for pixel := 0 to samples.Length1
      invariant |madMap| == pixel
      invariant forall p: nat :: p < pixel ==>
        madMap[p] == PixelMad(req.rule, Column(samples, p)) && center[p] == Center(Column(samples, p))
      invariant !scaled ==> forall f: nat, p: nat :: f < accepted.Length0 && p < pixel ==>
          accepted[f, p] == Phase1(req.rule, Column(samples, p), f)
    {
      var values := Column(samples, pixel);
      var c, mad := CenterAndMad(req.rule, values);
      center[pixel] := c;
      madMap := madMap + [mad];
      if !scaled {
        var flags := DecidePixel(req.rule, values, c, mad);
        StoreFlags(accepted, pixel, flags);
      }
    }
  }

  /** MadRejectionMask: one acceptance flag per sample and the centre of every pixel. */
  method MadRejectionMask(req: Request, samples: array2<Float>, width: nat, rows: nat, accepted: array2<bool>,
                          center: array<Float>)
    requires req.Valid(samples.Length0) && width > 0 && samples.Length1 == rows * width
    requires accepted.Length0 == samples.Length0 && accepted.Length1 == samples.Length1 == center.Length
    modifies accepted, center
    ensures forall p: nat :: p < center.Length ==> center[p] == Center(Column(samples, p))
    ensures forall f: nat, p: nat :: f < accepted.Length0 && p < accepted.Length1 ==>
        accepted[f, p] == Decision(req, samples, width, rows, f, p)
  {
    var madMap := FirstPass(req, samples, accepted, center);
    hide PixelMad, Center, Phase1, ScaledDecision, Column;
    assert madMap == MadMap(req.rule, samples);
    if Scaled(req, samples.Length0) {
      ScaledRange(req, samples, madMap, center, width, rows, 0, samples.Length1, accepted);
    }
  }

  // ----- what the decisions guarantee -----

  ghost predicate ScalesCover(req: Request) {
    forall i :: 0 <= i < |req.frameScales| ==> req.frameScales[i] >= 1.0
  }

  /** With scales of at least 1 the decision, pooled or not, accepts whatever phase 1 accepts. */
  lemma DecisionAcceptsMore(req: Request, samples: array2<Float>, width: nat, rows: nat, frame: nat, pixel: nat)
    requires req.Valid(samples.Length0) && IsRoot(req.root) && ScalesCover(req)
    requires width > 0 && samples.Length1 == rows * width && frame < samples.Length0 && pixel < samples.Length1
    ensures Phase1(req.rule, Column(samples, pixel), frame) ==> Decision(req, samples, width, rows, frame, pixel)
  {
    hide Phase1, Phase2, Column, PixelMad, PooledMad;
    var values, madMap := Column(samples, pixel), MadMap(req.rule, samples);
    var pooled := if madMap[pixel].Fin? then PooledMad(madMap, width, req.poolHalfWidth, pixel, rows) else 0.0;
    Phase2AcceptsMore(req.rule, req.root, req.Scale(frame), pooled, values, frame);
  }

  /** How many of a pixel's first n samples are accepted. */
  ghost function AcceptedCount(req: Request, samples: array2<Float>, width: nat, rows: nat, pixel: nat, n: nat): nat
    requires req.Valid(samples.Length0) && width > 0 && samples.Length1 == rows * width
    requires n <= samples.Length0 && pixel < samples.Length1
    reads samples
  {
    if n == 0 then 0
    else
      AcceptedCount(req, samples, width, rows, pixel, n - 1)
      + if Decision(req, samples, width, rows, n - 1, pixel) then 1 else 0
  }

  lemma {:induction false} AcceptedAtLeastKept(
      req: Request, samples: array2<Float>, width: nat, rows: nat, pixel: nat, n: nat)
    requires req.Valid(samples.Length0) && IsRoot(req.root) && ScalesCover(req)
    requires width > 0 && samples.Length1 == rows * width && n <= samples.Length0 && pixel < samples.Length1
    ensures AcceptedCount(req, samples, width, rows, pixel, n) >= KeptCount(req.rule, Column(samples, pixel), n)
  {
    hide Decision, Phase1, Column;
    if n > 0 {
      AcceptedAtLeastKept(req, samples, width, rows, pixel, n - 1);
      DecisionAcceptsMore(req, samples, width, rows, n - 1, pixel);
    }
  }

  /**
   With a clip of at least one MAD and scales of at least 1, every pixel keeps at least half of its finite samples.
   */
  lemma MaskKeepsHalf(req: Request, samples: array2<Float>, width: nat, rows: nat, pixel: nat)
    requires req.Valid(samples.Length0) && IsRoot(req.root) && ScalesCover(req)
    requires SIGMA_PER_MAD * req.rule.sigmaClip >= 1.0
    requires width > 0 && samples.Length1 == rows * width && pixel < samples.Length1
    ensures 2 * AcceptedCount(req, samples, width, rows, pixel, samples.Length0) >= |Finite(Column(samples, pixel))|
  {
    AcceptedAtLeastKept(req, samples, width, rows, pixel, samples.Length0);
    KeepsHalf(req.rule, Column(samples, pixel));
  }
}
