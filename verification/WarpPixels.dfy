/**
 The scalar warp of native/src/PortableKernels.cpp: WarpPixelContext::Evaluate with its cached weights, and the
 row loop of WarpLanczos3Clamped over affine and projective maps.
 */
module WarpPixels {
  import opened Wrappers
  import opened PooledWindow
  import opened HomographyMaps
  import opened LanczosTable
  import opened LanczosWarp
  import opened Reals

  datatype Source = Source(pixels: seq<seq<Float>>, width: nat, height: nat, domainScale: real) {
    ghost predicate Valid() {
      width >= 6 && height >= 6 && |pixels| == height && (forall j :: 0 <= j < height ==> |pixels[j]| == width)
          && domainScale > 0.0
    }
  }

  /** The index of a tap: only the last tap can leave the image, and it is held at the edge. */
  function TapIndex(floor: int, tap: int, size: int): int {
    var x := floor + tap - 2;
    if tap == 5 && size - 1 < x then size - 1 else x
  }

  datatype Range = Range(low: real, high: real)

  /** What the taps so far add up to, whether all of them were finite, and the range of the samples used. */
  datatype Support = Support(sum: real, valid: bool, range: Option<Range>)

  const EMPTY := Support(0.0, true, None)

  function Extend(range: Option<Range>, v: real): Option<Range> {
    match range
    case None => Some(Range(v, v))
    case Some(r) => Some(Range(if v < r.low then v else r.low, if r.high < v then v else r.high))
  }

  /** One tap: a weight of exactly zero uses nothing, not even whether the sample is finite. */
  function AddTap(s: Support, combined: real, neighbor: Float): Support {
    if combined == 0.0 then s
    else match neighbor
      case NonFinite => s.(valid := false)
      case Fin(v) => Support(s.sum + v * combined, s.valid, Extend(s.range, v))
  }

  /** The first n taps of one source row. */
  function RowTaps(row: seq<Float>, s: Support, xFloor: int, yWeight: real, xFraction: real, n: nat): Support
    requires 0.0 <= xFraction < 1.0 && |row| >= 6 && 2 <= xFloor <= |row| - 3 && n <= 6
  {
    if n == 0 then s
    else AddTap(RowTaps(row, s, xFloor, yWeight, xFraction, n - 1), yWeight * Weight(xFraction, n - 1),
        row[TapIndex(xFloor, n - 1, |row|)])
  }

  lemma FirstTap(row: seq<Float>, s: Support, xFloor: int, yWeight: real, xFraction: real)
    requires 0.0 <= xFraction < 1.0 && |row| >= 6 && 2 <= xFloor <= |row| - 3
    ensures RowTaps(row, s, xFloor, yWeight, xFraction, 0) == s
  {}

  lemma NextTap(row: seq<Float>, s: Support, xFloor: int, yWeight: real, xFraction: real, n: nat, weight: real)
    requires 0.0 <= xFraction < 1.0 && |row| >= 6 && 2 <= xFloor <= |row| - 3 && n < 6
    requires weight == Weight(xFraction, n)
    ensures 0 <= TapIndex(xFloor, n, |row|) < |row|
    ensures RowTaps(row, s, xFloor, yWeight, xFraction, n + 1)
      == AddTap(RowTaps(row, s, xFloor, yWeight, xFraction, n), yWeight * weight, row[TapIndex(xFloor, n, |row|)])
  {
    hide Weight, Extend;
  }

  /** The first m rows of the window, in row-major order. */
  function WindowTaps(src: Source, xFloor: int, yFloor: int, xFraction: real, yFraction: real, m: nat): Support
    requires src.Valid() && 0.0 <= xFraction < 1.0 && 0.0 <= yFraction < 1.0 && m <= 6
    requires 2 <= xFloor <= src.width - 3 && 2 <= yFloor <= src.height - 3
  {
    if m == 0 then EMPTY
    else RowTaps(src.pixels[TapIndex(yFloor, m - 1, src.height)],
        WindowTaps(src, xFloor, yFloor, xFraction, yFraction, m - 1),
                 xFloor, Weight(yFraction, m - 1), xFraction, 6)
  }

  /** The sum, clamped to the samples' range widened to [0, domainScale]. */
  function Clamped(s: Support, domainScale: real): Float {
    if !s.valid then NonFinite else
    var lower := if s.range.Some? then Min(s.range.value.low, 0.0) else 0.0;
    var upper := if s.range.Some? then Max(s.range.value.high, domainScale) else domainScale;
    Fin(Min(Max(s.sum, lower), upper))
  }

  predicate InDomain(src: Source, x: Float, y: Float) {
    x.Fin? && y.Fin? && 2.0 <= x.value <= src.width as real - 3.0 && 2.0 <= y.value <= src.height as real - 3.0
  }

  function FractionOf(x: real): (f: real)
    ensures 0.0 <= f < 1.0
  {
    x - x.Floor as real
  }

  /** The warped sample, as a function of the position alone. */
  function Warped(src: Source, x: Float, y: Float): Float
    requires src.Valid()
  {
    if !InDomain(src, x, y) then NonFinite
    else Clamped(WindowTaps(src, x.value.Floor, y.value.Floor, FractionOf(x.value), FractionOf(y.value), 6),
        src.domainScale)
  }

  // ----- what the warp promises -----

  /** The last tap is held at the edge only where its weight is zero. */
  lemma HeldTapHasNoWeight(x: real, size: nat)
    requires 2.0 <= x <= size as real - 3.0 && TapIndex(x.Floor, 5, size) != x.Floor + 3
    ensures x == size as real - 3.0 && FractionOf(x) == 0.0 && Weight(FractionOf(x), 5) == 0.0
  {
    WeightsAtZero(5);
  }

  lemma {:induction false} ZeroRow(row: seq<Float>, s: Support, xFloor: int, xFraction: real, n: nat)
    requires 0.0 <= xFraction < 1.0 && |row| >= 6 && 2 <= xFloor <= |row| - 3 && n <= 6
    ensures RowTaps(row, s, xFloor, 0.0, xFraction, n) == s
  {
    hide Weight;
    if n > 0 {
      ZeroRow(row, s, xFloor, xFraction, n - 1);
    }
  }

  /** With fraction zero a row adds only the sample itself. */
  lemma {:induction false} PlainRow(row: seq<Float>, s: Support, xFloor: int, n: nat)
    requires |row| >= 6 && 2 <= xFloor <= |row| - 3 && n <= 6
    ensures RowTaps(row, s, xFloor, 1.0, 0.0, n) == if n <= 2 then s else AddTap(s, 1.0, row[xFloor])
  {
    hide Weight;
    if n > 0 {
      PlainRow(row, s, xFloor, n - 1);
      WeightsAtZero(n - 1);
    }
  }

  lemma {:induction false} PlainWindow(src: Source, xFloor: int, yFloor: int, m: nat)
    requires src.Valid() && m <= 6 && 2 <= xFloor <= src.width - 3 && 2 <= yFloor <= src.height - 3
    ensures WindowTaps(src, xFloor, yFloor, 0.0, 0.0, m) ==
      if m <= 2 then EMPTY else AddTap(EMPTY, 1.0, src.pixels[yFloor][xFloor])
  {
    hide Weight, RowTaps, AddTap;
    if m > 0 {
      PlainWindow(src, xFloor, yFloor, m - 1);
      WeightsAtZero(m - 1);
      var before := WindowTaps(src, xFloor, yFloor, 0.0, 0.0, m - 1);
      var row := src.pixels[TapIndex(yFloor, m - 1, src.height)];
      if m == 3 {
        PlainRow(row, before, xFloor, 6);
      } else {
        ZeroRow(row, before, xFloor, 0.0, 6);
      }
    }
  }

  /** At an integer position inside the domain the warp returns exactly the source sample, whatever surrounds it. */
  lemma IntegerPosition(src: Source, a: int, b: int)
    requires src.Valid() && 2 <= a <= src.width - 3 && 2 <= b <= src.height - 3
    ensures Warped(src, Fin(a as real), Fin(b as real)) == src.pixels[b][a]
  {
    assert (a as real).Floor == a && (b as real).Floor == b;
    PlainWindow(src, a, b, 6);
  }

  /** All samples the support has used lie between low and high. */
  predicate Between(s: Support, low: real, high: real) {
    s.range.Some? ==> low <= s.range.value.low <= s.range.value.high <= high
  }

  ghost predicate AllBetween(row: seq<Float>, low: real, high: real) {
    forall i :: 0 <= i < |row| && row[i].Fin? ==> low <= row[i].value <= high
  }

  lemma {:induction false} RowBetween(row: seq<Float>, s: Support, xFloor: int, yWeight: real, xFraction: real, n: nat,
                                      low: real, high: real)
    requires 0.0 <= xFraction < 1.0 && |row| >= 6 && 2 <= xFloor <= |row| - 3 && n <= 6
    requires AllBetween(row, low, high) && Between(s, low, high)
    ensures Between(RowTaps(row, s, xFloor, yWeight, xFraction, n), low, high)
  {
    hide Weight;
    if n > 0 {
      RowBetween(row, s, xFloor, yWeight, xFraction, n - 1, low, high);
      var neighbor := row[TapIndex(xFloor, n - 1, |row|)];
      assert neighbor.Fin? ==> low <= neighbor.value <= high;
    }
  }

  lemma {:induction false} WindowBetween(src: Source, xFloor: int, yFloor: int, xFraction: real, yFraction: real,
                                         m: nat, low: real, high: real)
    requires src.Valid() && 0.0 <= xFraction < 1.0 && 0.0 <= yFraction < 1.0 && m <= 6
    requires 2 <= xFloor <= src.width - 3 && 2 <= yFloor <= src.height - 3
    requires forall j :: 0 <= j < src.height ==> AllBetween(src.pixels[j], low, high)
    ensures Between(WindowTaps(src, xFloor, yFloor, xFraction, yFraction, m), low, high)
  {
    hide Weight, RowTaps, AllBetween, Between;
    if m == 0 {
      EmptyBetween(low, high);
    } else {
      WindowBetween(src, xFloor, yFloor, xFraction, yFraction, m - 1, low, high);
      RowBetween(src.pixels[TapIndex(yFloor, m - 1, src.height)],
          WindowTaps(src, xFloor, yFloor, xFraction, yFraction, m - 1),
                 xFloor, Weight(yFraction, m - 1), xFraction, 6, low, high);
    }
  }

  lemma EmptyBetween(low: real, high: real)
    ensures Between(EMPTY, low, high)
  {}

  /** The ringing of the kernel never leaves the range of the source, widened to [0, domainScale]. */
  lemma WarpedInRange(src: Source, x: Float, y: Float, low: real, high: real)
    requires src.Valid() && Warped(src, x, y).Fin? && low <= 0.0 && src.domainScale <= high
    requires forall j :: 0 <= j < src.height ==> AllBetween(src.pixels[j], low, high)
    ensures low <= Warped(src, x, y).value <= high
  {
    hide WindowTaps, AllBetween;
    WindowBetween(src, x.value.Floor, y.value.Floor, FractionOf(x.value), FractionOf(y.value), 6, low, high);
  }

  // ----- flat images -----

  /** The support after taps of total weight w on samples that all equal c. */
  predicate Flat(s: Support, c: real, w: real) {
    s.valid && s.sum == c * w && (s.range.Some? ==> s.range.value == Range(c, c)) && (s.range.None? ==> w == 0.0)
  }

  lemma FlatTap(s: Support, c: real, w: real, combined: real)
    requires Flat(s, c, w)
    ensures Flat(AddTap(s, combined, Fin(c)), c, w + combined)
  {
    assert c * (w + combined) == c * w + c * combined;
  }

  /** The total weight of the first n taps of a row. */
  function RowWeight(yWeight: real, xFraction: real, n: nat): real
    requires 0.0 <= xFraction < 1.0
  {
    if n == 0 then 0.0 else RowWeight(yWeight, xFraction, n - 1) + yWeight * Weight(xFraction, n - 1)
  }

  lemma {:induction false} FlatRow(row: seq<Float>, s: Support, xFloor: int, yWeight: real, xFraction: real, n: nat,
                                   c: real, w: real)
    requires 0.0 <= xFraction < 1.0 && |row| >= 6 && 2 <= xFloor <= |row| - 3 && n <= 6
    requires (forall i :: 0 <= i < |row| ==> row[i] == Fin(c)) && Flat(s, c, w)
    ensures Flat(RowTaps(row, s, xFloor, yWeight, xFraction, n), c, w + RowWeight(yWeight, xFraction, n))
  {
    hide Weight, AddTap, Flat;
    if n > 0 {
      FlatRow(row, s, xFloor, yWeight, xFraction, n - 1, c, w);
      FlatTap(RowTaps(row, s, xFloor, yWeight, xFraction, n - 1), c, w + RowWeight(yWeight, xFraction, n - 1),
          yWeight * Weight(xFraction, n - 1));
      assert w + RowWeight(yWeight, xFraction, n)
        == w + RowWeight(yWeight, xFraction, n - 1) + yWeight * Weight(xFraction, n - 1);
    }
  }

  lemma {:induction false} RowWeightIs(yWeight: real, xFraction: real, n: nat, sum: real)
    requires 0.0 <= xFraction < 1.0 && sum == WeightSum(xFraction, n)
    ensures RowWeight(yWeight, xFraction, n) == yWeight * sum
  {
    hide Weight;
    if n > 0 {
      RowWeightIs(yWeight, xFraction, n - 1, WeightSum(xFraction, n - 1));
      Spread(yWeight, WeightSum(xFraction, n - 1), Weight(xFraction, n - 1), sum);
    }
  }

  lemma Spread(y: real, a: real, b: real, s: real)
    requires s == a + b
    ensures y * s == y * a + y * b
  {}

  lemma {:induction false} FlatWindow(src: Source, xFloor: int, yFloor: int, xFraction: real, yFraction: real, m: nat,
                                      c: real)
    requires src.Valid() && 0.0 <= xFraction < 1.0 && 0.0 <= yFraction < 1.0 && m <= 6
    requires 2 <= xFloor <= src.width - 3 && 2 <= yFloor <= src.height - 3
    requires forall j, i :: 0 <= j < src.height && 0 <= i < src.width ==> src.pixels[j][i] == Fin(c)
    ensures Flat(WindowTaps(src, xFloor, yFloor, xFraction, yFraction, m), c, WeightSum(yFraction, m))
  {
    hide Weight, RowTaps, Flat;
    if m == 0 {
      FlatEmpty(c);
    } else {
      FlatWindow(src, xFloor, yFloor, xFraction, yFraction, m - 1, c);
      WeightsSumToOne(xFraction);
      var w := Weight(yFraction, m - 1);
      FlatRow(src.pixels[TapIndex(yFloor, m - 1, src.height)],
          WindowTaps(src, xFloor, yFloor, xFraction, yFraction, m - 1),
              xFloor, w, xFraction, 6, c, WeightSum(yFraction, m - 1));
      RowWeightIs(w, xFraction, 6, 1.0);
    }
  }

  lemma TimesOne(w: real, s: real)
    requires s == 1.0
    ensures w * s == w
  {}

  lemma FlatEmpty(c: real)
    ensures Flat(EMPTY, c, 0.0)
  {
    assert c * 0.0 == 0.0;
  }

  /** A flat image stays flat at every position in the domain. */
  lemma FlatImage(src: Source, x: Float, y: Float, c: real)
    requires src.Valid() && InDomain(src, x, y)
    requires forall j, i :: 0 <= j < src.height && 0 <= i < src.width ==> src.pixels[j][i] == Fin(c)
    ensures Warped(src, x, y) == Fin(c)
  {
    hide WindowTaps, Weight;
    FlatWindow(src, x.value.Floor, y.value.Floor, FractionOf(x.value), FractionOf(y.value), 6, c);
    WeightsSumToOne(FractionOf(y.value));
    var s := WindowTaps(src, x.value.Floor, y.value.Floor, FractionOf(x.value), FractionOf(y.value), 6);
    assert s.sum == c * WeightSum(FractionOf(y.value), 6);
    TimesOne(c, WeightSum(FractionOf(y.value), 6));
  }

  // ----- the cached evaluation -----

  /** The reference arithmetic of one output pixel; the weights are kept while a fraction repeats. */
  class WarpPixelContext {
    const src: Source
    const table: array2<real>
    const xWeights: array<real>
    const yWeights: array<real>
    var lastXFraction: real
    var lastYFraction: real

    ghost predicate Holds(weights: array<real>, fraction: real)
      reads weights
      requires weights.Length == 6
    {
      fraction == -1.0
          || (0.0 <= fraction < 1.0 && forall tap :: 0 <= tap < 6 ==> weights[tap] == Weight(fraction, tap))
    }

    ghost predicate Valid()
      reads this, table, xWeights, yWeights
    {
      && src.Valid() && xWeights.Length == 6 && yWeights.Length == 6 && xWeights != yWeights
      && table.Length0 == NODES && table.Length1 == 6
      && (forall node, tap :: 0 <= node < NODES && 0 <= tap < 6 ==> table[node, tap] == Node(node, tap))
      && Holds(xWeights, lastXFraction) && Holds(yWeights, lastYFraction)
    }

    constructor (src: Source, table: array2<real>)
      requires src.Valid() && table.Length0 == NODES && table.Length1 == 6
      requires forall node, tap :: 0 <= node < NODES && 0 <= tap < 6 ==> table[node, tap] == Node(node, tap)
      ensures Valid() && fresh(xWeights) && fresh(yWeights) && this.src == src && this.table == table
    {
      hide Node;
      this.src, this.table := src, table;
      xWeights := new real[6];
      yWeights := new real[6];
      lastXFraction, lastYFraction := -1.0, -1.0;
    }

    /** Evaluate: the cache never shows, the sample depends on the position alone. */
    method Evaluate(x: Float, y: Float) returns (sample: Float)
      requires Valid()
      modifies this, xWeights, yWeights
      ensures Valid() && sample == Warped(src, x, y)
    {
      hide Node, Weight, AddTap, RowTaps, Clamped;
      if !InDomain(src, x, y) { return NonFinite; }
      var xFloor, yFloor := x.value.Floor, y.value.Floor;
      var xFraction, yFraction := FractionOf(x.value), FractionOf(y.value);
      if xFraction != lastXFraction {
        Lanczos3TableWeights(xFraction, table, xWeights);
        lastXFraction := xFraction;
      }
      if yFraction != lastYFraction {
        Lanczos3TableWeights(yFraction, table, yWeights);
        lastYFraction := yFraction;
      }
      var s := Window(xFloor, yFloor, xFraction, yFraction);
      sample := Clamped(s, src.domainScale);
    }

    /** The 36 taps, row by row. */
    method Window(xFloor: int, yFloor: int, ghost xFraction: real, ghost yFraction: real) returns (s: Support)
      requires src.Valid() && 2 <= xFloor <= src.width - 3 && 2 <= yFloor <= src.height - 3
      requires xWeights.Length == 6 && 0.0 <= xFraction < 1.0 && forall tap :: 0 <= tap < 6 ==>
        xWeights[tap] == Weight(xFraction, tap)
      requires yWeights.Length == 6 && 0.0 <= yFraction < 1.0 && forall tap :: 0 <= tap < 6 ==>
        yWeights[tap] == Weight(yFraction, tap)
      ensures s == WindowTaps(src, xFloor, yFloor, xFraction, yFraction, 6)
    {
      hide Weight, RowTaps;
      s := EMPTY;
      for j := 0 to 6
        invariant s == WindowTaps(src, xFloor, yFloor, xFraction, yFraction, j)
      {
        s := AddRow(s, src.pixels[TapIndex(yFloor, j, src.height)], xFloor, yWeights[j], xFraction);
      }
    }

    /** The six taps of one source row. */
    method AddRow(before: Support, row: seq<Float>, xFloor: int, yWeight: real, ghost xFraction: real)
      returns (s: Support)
      requires xWeights.Length == 6 && 0.0 <= xFraction < 1.0 && |row| >= 6 && 2 <= xFloor <= |row| - 3
      requires forall tap :: 0 <= tap < 6 ==> xWeights[tap] == Weight(xFraction, tap)
      ensures s == RowTaps(row, before, xFloor, yWeight, xFraction, 6)
    {
      hide Weight, RowTaps, Extend;
      s := before;
      FirstTap(row, before, xFloor, yWeight, xFraction);
      for i := 0 to 6
        invariant s == RowTaps(row, before, xFloor, yWeight, xFraction, i)
      {
        var combined := yWeight * xWeights[i];
        var neighbor := row[TapIndex(xFloor, i, |row|)];
        assert xWeights[i] == Weight(xFraction, i);
        NextTap(row, before, xFloor, yWeight, xFraction, i, xWeights[i]);
        if combined != 0.0 && neighbor.Fin? {
          s := Support(s.sum + neighbor.value * combined, s.valid, Extend(s.range, neighbor.value));
        } else if combined != 0.0 {
          s := s.(valid := false);
        }
      }
    }
  }

  // ----- rows -----

  /** The input position of an output pixel: affine maps skip the division; a zero denominator is not a position. */
  function InputPosition(inverse: Homography, column: nat, row: nat): (Float, Float) {
    var x, y := column as real, row as real;
    if inverse.IsAffine() then (Fin(inverse.X(x, y)), Fin(inverse.Y(x, y)))
    else if inverse.W(x, y) == 0.0 then (NonFinite, NonFinite)
    else (Fin(inverse.X(x, y) / inverse.W(x, y)), Fin(inverse.Y(x, y) / inverse.W(x, y)))
  }

  /** The affine shortcut agrees with the division. */
  lemma AffineShortcut(inverse: Homography, column: nat, row: nat)
    requires inverse.W(column as real, row as real) != 0.0
    ensures var p := inverse.Map(column as real, row as real);
        InputPosition(inverse, column, row) == (Fin(p.x), Fin(p.y))
  {
    if inverse.IsAffine() {
      AffineDenominator(inverse, column as real, row as real);
      OverOne(inverse.X(column as real, row as real), inverse.W(column as real, row as real));
      OverOne(inverse.Y(column as real, row as real), inverse.W(column as real, row as real));
    }
  }

  /** One output row, whatever the context evaluated before. */
  method WarpRow(pixel: WarpPixelContext, inverse: Homography, row: nat, output: array<Float>)
    requires pixel.Valid()
    modifies pixel, pixel.xWeights, pixel.yWeights, output
    ensures pixel.Valid()
    ensures forall c :: 0 <= c < output.Length ==>
      output[c] == Warped(pixel.src, InputPosition(inverse, c, row).0, InputPosition(inverse, c, row).1)
  {
    hide Warped, InputPosition;
    for column := 0 to output.Length
      invariant pixel.Valid()
      invariant forall c :: 0 <= c < column ==>
        output[c] == Warped(pixel.src, InputPosition(inverse, c, row).0, InputPosition(inverse, c, row).1)
    {
      var position := InputPosition(inverse, column, row);
      var sample := pixel.Evaluate(position.0, position.1);
      output[column] := sample;
    }
  }

  /** A shift by whole pixels copies samples, non-finite ones included. */
  lemma WholePixelShift(src: Source, inverse: Homography, column: nat, row: nat, dx: int, dy: int)
    requires src.Valid() && inverse == Homography(1.0, 0.0, dx as real, 0.0, 1.0, dy as real, 0.0, 0.0, 1.0)
    requires 2 <= column + dx <= src.width - 3 && 2 <= row + dy <= src.height - 3
    ensures Warped(src, InputPosition(inverse, column, row).0, InputPosition(inverse, column, row).1)
      == src.pixels[row + dy][column + dx]
  {
    hide *;
    ShiftedPosition(inverse, column, row, dx, dy);
    IntegerPosition(src, column + dx, row + dy);
  }

  lemma ShiftedPosition(inverse: Homography, column: nat, row: nat, dx: int, dy: int)
    requires inverse == Homography(1.0, 0.0, dx as real, 0.0, 1.0, dy as real, 0.0, 0.0, 1.0)
    ensures InputPosition(inverse, column, row) == (Fin((column + dx) as real), Fin((row + dy) as real))
  {}
}
