/**
 Line peaks of the fast Radon transform (native/src/PortableKernels.cpp): standardised line values and
 window maxima clipped to the stored layout.
 */
module RadonPeaks {
  import opened OrderStatistics
  import opened Radon
  import opened Reals

  /** Detection parameters.  `root` is the square root; only its positivity is used. */
  datatype Detection = Detection(minimumRows: nat, detectionZ: real, minimumCoverage: real, minimumCount: real,
                                 minimumScaleSamples: nat, root: real -> real) {

    /** RadonPeakRequest::Validate. */
    ghost predicate Valid(f: Frame) {
      f.Valid() && 2 <= minimumRows <= f.size && PowerOfTwo(minimumRows) && Sound()
    }

    /** The part of the check that does not depend on the frame, and the 32-bit sample minimum. */
    ghost predicate Sound() {
      && minimumScaleSamples < 0x1_0000_0000 && minimumCoverage >= 0.0 && minimumCount >= 0.0
      && forall x :: x >= 1.0 ==> root(x) > 0.0
    }

    /** The smallest count of a valid line of n rows. */
    function Threshold(n: nat): real {
      var covered := minimumCoverage * n as real;
      if minimumCount < covered then covered else minimumCount
    }

    /** The value of a line before standardisation: zero when its count is too small. */
    function RawZ(n: nat, line: Line): real
      requires line.count >= 0 && forall x :: x >= 1.0 ==> root(x) > 0.0
    {
      if line.count as real >= Threshold(n)
      then line.sum / root(if line.count as real < 1.0 then 1.0 else line.count as real)
      else 0.0
    }
  }

  datatype Peak = Peak(level: nat, block: nat, shiftIndex: nat, column: int, z: real)

  /** One dense line of level n, by block, shift index and padded column. */
  ghost function LineAt(f: Frame, n: nat, block: nat, shiftIndex: nat, x: int): (line: Line)
    requires f.Valid() && PowerOfTwo(n) && shiftIndex < 2 * n - 1
    ensures 0 <= line.count
  {
    CountBound(f, n, block, shiftIndex - (n - 1), x);
    Dense(f, n, block, shiftIndex - (n - 1), x)
  }

  ghost predicate IsValidLine(f: Frame, d: Detection, n: nat, block: nat, shiftIndex: nat, x: int)
    requires f.Valid() && PowerOfTwo(n) && shiftIndex < 2 * n - 1
  {
    LineAt(f, n, block, shiftIndex, x).count as real >= d.Threshold(n)
  }

  ghost function RawAt(f: Frame, d: Detection, n: nat, block: nat, shiftIndex: nat, x: int): real
    requires d.Valid(f) && PowerOfTwo(n) && shiftIndex < 2 * n - 1
  {
    d.RawZ(n, LineAt(f, n, block, shiftIndex, x))
  }

  function Lo(f: Frame, n: nat): int {
    f.size - (n - 1)
  }

  function Length(f: Frame, n: nat): int {
    f.width + 2 * (n - 1)
  }

  /** A stored position of level n. */
  predicate Inside(f: Frame, n: nat, block: nat, x: int)
    requires n > 0
  {
    block < ActiveBlocks(f, n) && Lo(f, n) <= x < Lo(f, n) + Length(f, n)
  }

  // ----- standardisation -----

  /** The values of the valid stored lines before position (b, s, c), in storage order. */
  ghost function Sample(f: Frame, d: Detection, n: nat, b: nat, s: nat, c: nat): seq<real>
    requires d.Valid(f) && PowerOfTwo(n) && s <= 2 * n - 1 && c <= Length(f, n) && (s == 2 * n - 1 ==> c == 0)
    decreases b, s, c
  {
    if c > 0 then
      Sample(f, d, n, b, s, c - 1)
      + if IsValidLine(f, d, n, b, s, Lo(f, n) + c - 1) then [RawAt(f, d, n, b, s, Lo(f, n) + c - 1)] else []
    else if s > 0 then RowEnd(f, d, n, b, s - 1)
    else if b > 0 then Sample(f, d, n, b - 1, 2 * n - 1, 0)
    else []
  }

  ghost function RowEnd(f: Frame, d: Detection, n: nat, b: nat, s: nat): seq<real>
    requires d.Valid(f) && PowerOfTwo(n) && s < 2 * n - 1
    decreases b, s, Length(f, n) + 1
  {
    Sample(f, d, n, b, s, Length(f, n))
  }

  ghost function LevelSample(f: Frame, d: Detection, n: nat): seq<real>
    requires d.Valid(f) && PowerOfTwo(n)
  {
    Sample(f, d, n, ActiveBlocks(f, n), 0, 0)
  }

  /** What every value of the level is divided by: 1.4826 times the sample's MAD, or 1. */
  function Divisor(d: Detection, sample: seq<real>): (r: real)
    ensures r > 0.0
  {
    if sample == [] || |sample| < d.minimumScaleSamples then 1.0
    else
      var scale := 1.4826 * Mad(sample, Median(sample));
      if scale > 0.0 then scale else 1.0
  }

  /** The standardised value of a dense line. */
  ghost function Z(f: Frame, d: Detection, n: nat, block: nat, shiftIndex: nat, x: int): real
    requires d.Valid(f) && PowerOfTwo(n) && shiftIndex < 2 * n - 1
  {
    RawAt(f, d, n, block, shiftIndex, x) / Divisor(d, LevelSample(f, d, n))
  }

  /** Lines outside the stored layout have value exactly zero. */
  lemma OutsideIsZero(f: Frame, d: Detection, n: nat, block: nat, shiftIndex: nat, x: int)
    requires d.Valid(f) && PowerOfTwo(n) && shiftIndex < 2 * n - 1 && !Inside(f, n, block, x)
    ensures LineAt(f, n, block, shiftIndex, x) == Zero
    ensures Z(f, d, n, block, shiftIndex, x) == 0.0
  {
    hide Z, LineAt, Dense, PowerOfTwo;
    OutsideVanishes(f, n, block, shiftIndex - (n - 1), x);
    ZeroLine(f, d, n, block, shiftIndex, x);
  }

  lemma ZeroLine(f: Frame, d: Detection, n: nat, block: nat, shiftIndex: nat, x: int)
    requires d.Valid(f) && PowerOfTwo(n) && shiftIndex < 2 * n - 1
      && Dense(f, n, block, shiftIndex - (n - 1), x) == Zero
    ensures LineAt(f, n, block, shiftIndex, x) == Zero
    ensures Z(f, d, n, block, shiftIndex, x) == 0.0
  {
    hide Dense, LevelSample, Divisor, PowerOfTwo;
    ZeroOver(d.root(1.0));
    ZeroOver(Divisor(d, LevelSample(f, d, n)));
  }

  lemma ZeroOver(x: real)
    requires x > 0.0
    ensures 0.0 / x == 0.0
  {}

  // ----- peaks of the stored layout -----

  /** No value of the (5 shifts, 7 columns) window clipped to the stored layout is greater. */
  ghost predicate StoredPeak(f: Frame, d: Detection, n: nat, block: nat, shiftIndex: nat, x: int)
    requires d.Valid(f) && PowerOfTwo(n) && shiftIndex < 2 * n - 1
  {
    && Inside(f, n, block, x) && Z(f, d, n, block, shiftIndex, x) >= d.detectionZ
    && forall s: nat, c: int ::
         shiftIndex - 2 <= s <= shiftIndex + 2 && s < 2 * n - 1 && x - 3 <= c <= x + 3 && Inside(f, n, block, c) ==>
           Z(f, d, n, block, s, c) <= Z(f, d, n, block, shiftIndex, x)
  }

  // ----- the kernel -----

  /** z holds the unstandardised (scaled = false) or standardised values of the stored layout. */
  ghost predicate ZOf(f: Frame, d: Detection, n: nat, z: array3<real>, scaled: bool)
    requires d.Valid(f) && PowerOfTwo(n)
    reads z
  {
    && z.Length0 == ActiveBlocks(f, n) && z.Length1 == 2 * n - 1 && z.Length2 == Length(f, n)
    && forall b: nat, s: nat, c: nat :: b < z.Length0 && s < z.Length1 && c < z.Length2 ==>
         z[b, s, c] == if scaled then Z(f, d, n, b, s, Lo(f, n) + c) else RawAt(f, d, n, b, s, Lo(f, n) + c)
  }

  /** A stored line, seen as the dense line of its position. */
  lemma StoredLine(f: Frame, d: Detection, n: nat, b: nat, s: nat, c: nat, line: Line)
    requires d.Valid(f) && PowerOfTwo(n) && s < 2 * n - 1 && line == Entry(f, n, b, s, c)
    ensures line.count >= 0
    ensures d.RawZ(n, line) == RawAt(f, d, n, b, s, Lo(f, n) + c)
    ensures line.count as real >= d.Threshold(n) <==> IsValidLine(f, d, n, b, s, Lo(f, n) + c)
  {
    assert line == LineAt(f, n, b, s, Lo(f, n) + c);
  }

  /** Line values before standardisation. */
  method RawValues(ghost f: Frame, level: RadonLevel, d: Detection) returns (z: array3<real>)
    requires level.Holds(f) && d.Valid(f)
    ensures fresh(z) && ZOf(f, d, level.n, z, false)
  {
    hide Dense, LineAt, RawAt, Entry, PowerOfTwo;
    var n, sums, counts := level.n, level.sums, level.counts;
    z := new real[level.activeBlocks, level.shifts, level.hi - level.lo](
      (b, s, c) requires 0 <= b < sums.Length0 == counts.Length0 && 0 <= s < sums.Length1 == counts.Length1
        && 0 <= c < sums.Length2 == counts.Length2 && (forall x :: x >= 1.0 ==> d.root(x) > 0.0)
        reads sums, counts
        => d.RawZ(n, Line(sums[b, s, c], counts[b, s, c])));
    forall b: nat, s: nat, c: nat | b < z.Length0 && s < z.Length1 && c < z.Length2
      ensures z[b, s, c] == RawAt(f, d, n, b, s, Lo(f, n) + c)
    {
      assert level.Right(f, b, s, c);
      StoredLine(f, d, n, b, s, c, Line(sums[b, s, c], counts[b, s, c]));
    }
  }

  lemma SampleEnds(f: Frame, d: Detection, n: nat, b: nat)
    requires d.Valid(f) && PowerOfTwo(n)
    ensures Sample(f, d, n, 0, 0, 0) == []
    ensures Sample(f, d, n, b + 1, 0, 0) == Sample(f, d, n, b, 2 * n - 1, 0)
    ensures forall s: nat :: s < 2 * n - 1 ==> Sample(f, d, n, b, s + 1, 0) == Sample(f, d, n, b, s, Length(f, n))
  {
    forall s: nat | s < 2 * n - 1
      ensures Sample(f, d, n, b, s + 1, 0) == Sample(f, d, n, b, s, Length(f, n))
    {
      assert Sample(f, d, n, b, s + 1, 0) == RowEnd(f, d, n, b, s);
    }
  }

  lemma SampleStep(f: Frame, d: Detection, n: nat, b: nat, s: nat, c: nat)
    requires d.Valid(f) && PowerOfTwo(n) && s < 2 * n - 1 && c < Length(f, n)
    ensures Sample(f, d, n, b, s, c + 1) == Sample(f, d, n, b, s, c)
        + if IsValidLine(f, d, n, b, s, Lo(f, n) + c) then [RawAt(f, d, n, b, s, Lo(f, n) + c)] else []
  {
    hide IsValidLine, RawAt;
  }

  lemma LevelSizes(f: Frame, level: RadonLevel, d: Detection, z: array3<real>, scaled: bool)
    requires level.Holds(f) && d.Valid(f) && ZOf(f, d, level.n, z, scaled)
    ensures PowerOfTwo(level.n) && level.activeBlocks == ActiveBlocks(f, level.n) && level.shifts == 2 * level.n - 1
    ensures 0 <= level.hi - level.lo == Length(f, level.n)
    ensures z.Length0 == level.counts.Length0 == level.activeBlocks && z.Length1 == level.counts.Length1 == level.shifts
      && z.Length2 == level.counts.Length2 == level.hi - level.lo
  {
    hide PowerOfTwo, RadonLevel.Right, RawAt, Z, ActiveBlocks;
  }

  lemma SampleRowEnd(f: Frame, d: Detection, n: nat, b: nat, s: nat)
    requires d.Valid(f) && PowerOfTwo(n) && s < 2 * n - 1
    ensures Sample(f, d, n, b, s + 1, 0) == Sample(f, d, n, b, s, Length(f, n))
  {
    SampleEnds(f, d, n, b);
  }

  lemma LevelSampleIs(f: Frame, d: Detection, n: nat)
    requires d.Valid(f) && PowerOfTwo(n)
    ensures LevelSample(f, d, n) == Sample(f, d, n, ActiveBlocks(f, n), 0, 0)
  {
    hide Sample, PowerOfTwo, ActiveBlocks;
  }

  /** One stored line of the level adds its value when its count suffices. */
  lemma GatherStep(f: Frame, level: RadonLevel, d: Detection, z: array3<real>, b: nat, s: nat, c: nat)
    requires level.Holds(f) && d.Valid(f) && ZOf(f, d, level.n, z, false)
    requires b < level.activeBlocks && s < level.shifts && c < level.hi - level.lo
    ensures var n := level.n;
      && b < z.Length0 == level.counts.Length0 && s < z.Length1 == level.counts.Length1
      && c < z.Length2 == level.counts.Length2 && PowerOfTwo(n) && s < 2 * n - 1 && c < Length(f, n)
      && Sample(f, d, n, b, s, c + 1) == Sample(f, d, n, b, s, c)
         + if level.counts[b, s, c] as real >= d.Threshold(n) then [z[b, s, c]] else []
  {
    hide Sample, Dense, LineAt, RawAt, IsValidLine, Entry, PowerOfTwo, ActiveBlocks, Detection.Threshold;
    assert level.Right(f, b, s, c);
    StoredLine(f, d, level.n, b, s, c, Line(level.sums[b, s, c], level.counts[b, s, c]));
    SampleStep(f, d, level.n, b, s, c);
  }

  /** The values of the valid lines, in storage order. */
  method GatherSample(ghost f: Frame, level: RadonLevel, d: Detection, z: array3<real>) returns (sample: seq<real>)
    requires level.Holds(f) && d.Valid(f) && ZOf(f, d, level.n, z, false)
    ensures sample == LevelSample(f, d, level.n)
  {
    hide *;
    LevelSizes(f, level, d, z, false);
    var n := level.n;
    SampleEnds(f, d, n, 0);
    sample := [];
    for b := 0 to level.activeBlocks
      invariant sample == Sample(f, d, n, b, 0, 0)
    {
      SampleEnds(f, d, n, b);
      for s := 0 to level.shifts
        invariant sample == Sample(f, d, n, b, s, 0)
      {
        for c := 0 to level.hi - level.lo
          invariant sample == Sample(f, d, n, b, s, c)
        {
          GatherStep(f, level, d, z, b, s, c);
          if level.counts[b, s, c] as real >= d.Threshold(n) {
            sample := sample + [z[b, s, c]];
          }
        }
        SampleRowEnd(f, d, n, b, s);
      }
    }
    LevelSampleIs(f, d, n);
  }

  lemma MadIs(s: seq<real>, center: real)
    requires s != []
    ensures Deviations(s, center) != [] && Mad(s, center) == Median(Deviations(s, center))
  {
    hide Median;
  }

  /** The scale of a sample: Float32Median of the sample, then of the deviations of the reordered sample. */
  method ScaleOf(d: Detection, sample: seq<real>) returns (divisor: real)
    ensures divisor == Divisor(d, sample)
  {
    hide Mad, Median, Sort;
    if sample == [] || |sample| < d.minimumScaleSamples {
      return 1.0;
    }
    var n := |sample|;
    var values := new real[n](i requires 0 <= i < |sample| => sample[i]);
    assert values[..n] == sample;
    var location := MedianOfFinite(values, n);
    ghost var reordered := values[..n];
    MadOfPermutation(sample, reordered, location);
    var deviations := new real[n](i requires 0 <= i < n <= values.Length reads values => Abs(values[i] - location));
    assert deviations[..n] == Deviations(reordered, location);
    MadIs(reordered, location);
    var mad := MedianOfFinite(deviations, n);
    var scale := 1.4826 * mad;
    return if scale > 0.0 then scale else 1.0;
  }

  method Standardise(ghost f: Frame, level: RadonLevel, d: Detection) returns (z: array3<real>)
    requires level.Holds(f) && d.Valid(f)
    ensures fresh(z) && ZOf(f, d, level.n, z, true)
  {
    z := RawValues(f, level, d);
    var sample := GatherSample(f, level, d, z);
    var divisor := ScaleOf(d, sample);
    Rescale(f, d, level.n, z, divisor);
  }

  method Rescale(ghost f: Frame, d: Detection, n: nat, z: array3<real>, divisor: real)
    requires d.Valid(f) && PowerOfTwo(n) && ZOf(f, d, n, z, false) && divisor == Divisor(d, LevelSample(f, d, n))
    modifies z
    ensures ZOf(f, d, n, z, true)
  {
    hide Divisor, LevelSample, RawAt, ActiveBlocks, PowerOfTwo, Lo, Length;
    forall b, s, c | 0 <= b < z.Length0 && 0 <= s < z.Length1 && 0 <= c < z.Length2 {
      z[b, s, c] := z[b, s, c] / divisor;
    }
  }

  /** The peaks of the stored positions before (b, s, c), in storage order. */
  ghost function PeaksBefore(f: Frame, d: Detection, n: nat, b: nat, s: nat, c: nat): seq<Peak>
    requires d.Valid(f) && PowerOfTwo(n) && s <= 2 * n - 1 && c <= Length(f, n) && (s == 2 * n - 1 ==> c == 0)
    decreases b, s, c
  {
    if c > 0 then
      PeaksBefore(f, d, n, b, s, c - 1) + PeakHere(f, d, n, b, s, Lo(f, n) + c - 1)
    else if s > 0 then PeaksToRowEnd(f, d, n, b, s - 1)
    else if b > 0 then PeaksBefore(f, d, n, b - 1, 2 * n - 1, 0)
    else []
  }

  ghost function PeakHere(f: Frame, d: Detection, n: nat, b: nat, s: nat, x: int): seq<Peak>
    requires d.Valid(f) && PowerOfTwo(n) && s < 2 * n - 1
  {
    if StoredPeak(f, d, n, b, s, x) then [Peak(n, b, s, x, Z(f, d, n, b, s, x))] else []
  }

  ghost function PeaksToRowEnd(f: Frame, d: Detection, n: nat, b: nat, s: nat): seq<Peak>
    requires d.Valid(f) && PowerOfTwo(n) && s < 2 * n - 1
    decreases b, s, Length(f, n) + 1
  {
    PeaksBefore(f, d, n, b, s, Length(f, n))
  }

  ghost function LevelPeaks(f: Frame, d: Detection, n: nat): seq<Peak>
    requires d.Valid(f) && PowerOfTwo(n)
  {
    PeaksBefore(f, d, n, ActiveBlocks(f, n), 0, 0)
  }

  predicate Near(a: nat, b: nat, reach: nat) {
    a <= b + reach && b <= a + reach
  }

  /** No value of the window clipped to the array exceeds the one at (b, s, c). */
  ghost predicate WindowMaximum(z: array3<real>, b: nat, s: nat, c: nat)
    requires b < z.Length0 && s < z.Length1 && c < z.Length2
    reads z
  {
    forall i: nat, j: nat :: Near(s, i, 2) && i < z.Length1 && Near(c, j, 3) && j < z.Length2 ==>
        z[b, i, j] <= z[b, s, c]
  }

  /** Whether the value at (b, s, c) is a maximum of its clipped window. */
  method IsWindowMaximum(z: array3<real>, b: nat, s: nat, c: nat) returns (peak: bool)
    requires b < z.Length0 && s < z.Length1 && c < z.Length2
    ensures peak <==> WindowMaximum(z, b, s, c)
  {
    var value := z[b, s, c];
    var firstShift := if s >= 2 then s - 2 else 0;
    var lastShift := if z.Length1 - 1 < s + 2 then z.Length1 - 1 else s + 2;
    var firstColumn := if c >= 3 then c - 3 else 0;
    var lastColumn := if z.Length2 - 1 < c + 3 then z.Length2 - 1 else c + 3;
    peak := true;
    var i := firstShift;
    while i <= lastShift && peak
      invariant firstShift <= i <= lastShift + 1
      invariant peak ==> forall i': nat, j: nat :: firstShift <= i' < i && firstColumn <= j <= lastColumn ==>
        z[b, i', j] <= value
      invariant !peak ==>
        exists i': nat, j: nat :: firstShift <= i' <= lastShift && firstColumn <= j <= lastColumn && z[b, i', j] > value
    {
      var j := firstColumn;
      while j <= lastColumn
        invariant firstColumn <= j <= lastColumn + 1
        invariant forall j': nat :: firstColumn <= j' < j ==> z[b, i, j'] <= value
      {
        if z[b, i, j] > value {
          peak := false;
          break;
        }
        j := j + 1;
      }
      i := i + 1;
    }
  }

  lemma PeaksEnds(f: Frame, d: Detection, n: nat, b: nat)
    requires d.Valid(f) && PowerOfTwo(n)
    ensures PeaksBefore(f, d, n, 0, 0, 0) == []
    ensures PeaksBefore(f, d, n, b + 1, 0, 0) == PeaksBefore(f, d, n, b, 2 * n - 1, 0)
    ensures forall s: nat :: s < 2 * n - 1 ==>
      PeaksBefore(f, d, n, b, s + 1, 0) == PeaksBefore(f, d, n, b, s, Length(f, n))
  {
    forall s: nat | s < 2 * n - 1
      ensures PeaksBefore(f, d, n, b, s + 1, 0) == PeaksBefore(f, d, n, b, s, Length(f, n))
    {
      assert PeaksBefore(f, d, n, b, s + 1, 0) == PeaksToRowEnd(f, d, n, b, s);
    }
  }

  /** The clipped window of the array is the clipped window of the stored level. */
  lemma WindowIsStored(f: Frame, d: Detection, n: nat, z: array3<real>, b: nat, s: nat, c: nat)
    requires d.Valid(f) && PowerOfTwo(n) && ZOf(f, d, n, z, true) && b < z.Length0 && s < z.Length1 && c < z.Length2
    ensures WindowMaximum(z, b, s, c) && z[b, s, c] >= d.detectionZ <==> StoredPeak(f, d, n, b, s, Lo(f, n) + c)
    ensures z[b, s, c] == Z(f, d, n, b, s, Lo(f, n) + c)
  {
    hide Z, ActiveBlocks, PowerOfTwo;
    if StoredPeak(f, d, n, b, s, Lo(f, n) + c) {
      forall i: nat, j: nat | Near(s, i, 2) && i < z.Length1 && Near(c, j, 3) && j < z.Length2
        ensures z[b, i, j] <= z[b, s, c]
      {
        assert Z(f, d, n, b, i, Lo(f, n) + j) <= Z(f, d, n, b, s, Lo(f, n) + c);
      }
    }
    if WindowMaximum(z, b, s, c) && z[b, s, c] >= d.detectionZ {
      var x := Lo(f, n) + c;
      forall i: nat, y: int | s - 2 <= i <= s + 2 && i < 2 * n - 1 && x - 3 <= y <= x + 3 && Inside(f, n, b, y)
        ensures Z(f, d, n, b, i, y) <= Z(f, d, n, b, s, x)
      {
        assert z[b, i, y - Lo(f, n)] <= z[b, s, c];
      }
    }
  }

  lemma RowSizes(f: Frame, d: Detection, n: nat, z: array3<real>)
    requires d.Valid(f) && PowerOfTwo(n) && ZOf(f, d, n, z, true)
    ensures z.Length0 == ActiveBlocks(f, n) && z.Length1 == 2 * n - 1 && z.Length2 == Length(f, n)
  {
    hide PowerOfTwo, Z, ActiveBlocks;
  }

  lemma PeaksRowEnd(f: Frame, d: Detection, n: nat, b: nat, s: nat)
    requires d.Valid(f) && PowerOfTwo(n) && s < 2 * n - 1
    ensures PeaksBefore(f, d, n, b, s + 1, 0) == PeaksBefore(f, d, n, b, s, Length(f, n))
  {
    PeaksEnds(f, d, n, b);
  }

  /** A stored position adds its value if it is high enough and the maximum of its window. */
  lemma PeakStep(f: Frame, d: Detection, n: nat, z: array3<real>, b: nat, s: nat, c: nat)
    requires d.Valid(f) && PowerOfTwo(n) && ZOf(f, d, n, z, true) && b < z.Length0 && s < z.Length1 && c < z.Length2
    ensures s < 2 * n - 1 && c < Length(f, n)
    ensures PeaksBefore(f, d, n, b, s, c + 1) == PeaksBefore(f, d, n, b, s, c)
         + if WindowMaximum(z, b, s, c) && z[b, s, c] >= d.detectionZ
           then [Peak(n, b, s, Lo(f, n) + c, z[b, s, c])] else []
  {
    RowSizes(f, d, n, z);
    hide PeaksBefore, StoredPeak, Z, ZOf, PowerOfTwo, WindowMaximum, ActiveBlocks, Detection.Valid;
    PeaksStep(f, d, n, b, s, c);
    WindowIsStored(f, d, n, z, b, s, c);
  }

  /** The peaks of one row of lines. */
  method RowPeaks(ghost f: Frame, d: Detection, n: nat, lo: nat, z: array3<real>, b: nat, s: nat)
    returns (peaks: seq<Peak>)
    requires d.Valid(f) && PowerOfTwo(n) && ZOf(f, d, n, z, true) && b < z.Length0 && s < z.Length1 && lo == Lo(f, n)
    ensures PeaksBefore(f, d, n, b, s + 1, 0) == PeaksBefore(f, d, n, b, s, 0) + peaks
  {
    hide *;
    RowSizes(f, d, n, z);
    peaks := [];
    for c := 0 to z.Length2
      invariant PeaksBefore(f, d, n, b, s, c) == PeaksBefore(f, d, n, b, s, 0) + peaks
    {
      var value := z[b, s, c];
      PeakStep(f, d, n, z, b, s, c);
      if value >= d.detectionZ {
        var peak := IsWindowMaximum(z, b, s, c);
        if peak {
          peaks := peaks + [Peak(n, b, s, lo + c, value)];
        }
      }
    }
    PeaksRowEnd(f, d, n, b, s);
  }

  method AllRows(ghost f: Frame, d: Detection, n: nat, lo: nat, z: array3<real>) returns (peaks: seq<Peak>)
    requires d.Valid(f) && PowerOfTwo(n) && ZOf(f, d, n, z, true) && lo == Lo(f, n)
    ensures peaks == LevelPeaks(f, d, n)
  {
    hide PeaksBefore, Z, PowerOfTwo;
    PeaksEnds(f, d, n, 0);
    peaks := [];
    for b := 0 to z.Length0
      invariant peaks == PeaksBefore(f, d, n, b, 0, 0)
    {
      PeaksEnds(f, d, n, b);
      for s := 0 to z.Length1
        invariant peaks == PeaksBefore(f, d, n, b, s, 0)
      {
        var row := RowPeaks(f, d, n, lo, z, b, s);
        peaks := peaks + row;
      }
    }
  }

  /** CollectLevelPeaks: the peaks of one level, appended in storage order. */
  method CollectLevelPeaks(ghost f: Frame, level: RadonLevel, d: Detection, peaks0: seq<Peak>)
    returns (peaks: seq<Peak>)
    requires level.Holds(f) && d.Valid(f)
    ensures peaks == peaks0 + LevelPeaks(f, d, level.n)
  {
    var z := Standardise(f, level, d);
    var found := AllRows(f, d, level.n, level.lo, z);
    peaks := peaks0 + found;
  }

  lemma PeaksStep(f: Frame, d: Detection, n: nat, b: nat, s: nat, c: nat)
    requires d.Valid(f) && PowerOfTwo(n) && s < 2 * n - 1 && c < Length(f, n)
    ensures PeaksBefore(f, d, n, b, s, c + 1) == PeaksBefore(f, d, n, b, s, c) + PeakHere(f, d, n, b, s, Lo(f, n) + c)
  {
    hide PeakHere;
  }

  /** All reported levels from block length n on, in order. */
  ghost function PeaksFrom(f: Frame, d: Detection, n: nat): seq<Peak>
    requires d.Valid(f) && PowerOfTwo(n)
    decreases f.size + 1 - n
  {
    if n > f.size then []
    else
      assert 2 * n / 2 == n;
      (if n >= d.minimumRows then LevelPeaks(f, d, n) else []) + PeaksFrom(f, d, 2 * n)
  }

  lemma PeaksFromStep(f: Frame, d: Detection, n: nat)
    requires d.Valid(f) && PowerOfTwo(n) && n < f.size
    ensures 2 * n <= f.size && PowerOfTwo(2 * n) && PowerOfTwo(4 * n)
    ensures PeaksFrom(f, d, 2 * n)
      == (if 2 * n >= d.minimumRows then LevelPeaks(f, d, 2 * n) else []) + PeaksFrom(f, d, 4 * n)
  {
    PowerDivides(n, f.size);
    hide LevelPeaks;
    assert 2 * n / 2 == n && 4 * n / 2 == 2 * n;
  }

  /** The next level, and its peaks when its lines are long enough. */
  method NextLevelPeaks(f: Frame, d: Detection, previous: RadonLevel, level: RadonLevel, peaks0: seq<Peak>)
    returns (peaks: seq<Peak>)
    requires d.Valid(f) && previous.Holds(f) && 2 * previous.n <= f.size && previous != level
    modifies level
    ensures level.Holds(f) && level.n == 2 * previous.n && fresh(level.sums) && fresh(level.counts)
    ensures peaks == peaks0 + if level.n >= d.minimumRows then LevelPeaks(f, d, level.n) else []
  {
    hide LevelPeaks, RadonLevel.Right;
    NextRadonLevel(f, previous, level, f.height, f.width, f.size);
    peaks := peaks0;
    if level.n >= d.minimumRows {
      peaks := CollectLevelPeaks(f, level, d, peaks);
    }
  }

  /** RadonLinePeaks: build the levels one from the other, two at a time, and collect the peaks of the long ones. */
  method RadonLinePeaks(f: Frame, d: Detection) returns (peaks: seq<Peak>)
    requires d.Valid(f)
    ensures peaks == PeaksFrom(f, d, 2)
  {
    hide LevelPeaks, PeaksFrom, RadonLevel.Right, RadonLevel.HoldsUpTo;
    var previous := new RadonLevel();
    var level := new RadonLevel();
    FirstLevel(f, previous);
    peaks := [];
    ghost var n := 1;
    while previous.n < f.size
      invariant previous.Holds(f) && previous.n == n && PowerOfTwo(2 * n)
      invariant previous != level && fresh(previous) && fresh(level)
      invariant PeaksFrom(f, d, 2) == peaks + PeaksFrom(f, d, 2 * n)
      decreases f.size - n
    {
      PeaksFromStep(f, d, n);
      peaks := NextLevelPeaks(f, d, previous, level, peaks);
      previous, level := level, previous;
      n := 2 * n;
    }
    NoMorePeaks(f, d, 2 * n);
  }

  lemma NoMorePeaks(f: Frame, d: Detection, n: nat)
    requires d.Valid(f) && PowerOfTwo(n) && n > f.size
    ensures PeaksFrom(f, d, n) == []
  {}

  // ----- what the reported list is -----

  /** Storage order (NumPy's nonzero order): block, then shift, then column. */
  predicate Precedes(block: nat, shiftIndex: nat, column: int, b: nat, s: nat, x: int) {
    block < b || (block == b && (shiftIndex < s || (shiftIndex == s && column < x)))
  }

  /** `p` reports a stored peak of level n with its standardised value. */
  ghost predicate Reports(f: Frame, d: Detection, n: nat, p: Peak)
    requires d.Valid(f) && PowerOfTwo(n)
  {
    && p.level == n && p.shiftIndex < 2 * n - 1 && StoredPeak(f, d, n, p.block, p.shiftIndex, p.column)
    && p.z == Z(f, d, n, p.block, p.shiftIndex, p.column)
  }

  lemma {:induction false} PeakMembers(f: Frame, d: Detection, n: nat, b: nat, s: nat, c: nat, p: Peak)
    requires d.Valid(f) && PowerOfTwo(n) && s <= 2 * n - 1 && c <= Length(f, n) && (s == 2 * n - 1 ==> c == 0)
    ensures p in PeaksBefore(f, d, n, b, s, c)
        <==> Reports(f, d, n, p) && Precedes(p.block, p.shiftIndex, p.column, b, s, Lo(f, n) + c)
    decreases b, s, c
  {
    hide Z, PowerOfTwo;
    if c > 0 {
      PeakMembers(f, d, n, b, s, c - 1, p);
      PeaksStep(f, d, n, b, s, c - 1);
    } else if s > 0 {
      PeakMembers(f, d, n, b, s - 1, Length(f, n), p);
      PeaksEnds(f, d, n, b);
    } else if b > 0 {
      PeakMembers(f, d, n, b - 1, 2 * n - 1, 0, p);
      PeaksEnds(f, d, n, b - 1);
    } else {
      PeaksEnds(f, d, n, 0);
      assert p !in PeaksBefore(f, d, n, 0, 0, 0);
    }
  }

  ghost predicate Ordered(peaks: seq<Peak>) {
    forall i, j :: 0 <= i < j < |peaks| ==>
      Precedes(peaks[i].block, peaks[i].shiftIndex, peaks[i].column, peaks[j].block, peaks[j].shiftIndex,
          peaks[j].column)
  }

  lemma {:induction false} PeaksOrdered(f: Frame, d: Detection, n: nat, b: nat, s: nat, c: nat)
    requires d.Valid(f) && PowerOfTwo(n) && s <= 2 * n - 1 && c <= Length(f, n) && (s == 2 * n - 1 ==> c == 0)
    ensures Ordered(PeaksBefore(f, d, n, b, s, c))
    decreases b, s, c
  {
    if c > 0 {
      PeaksOrdered(f, d, n, b, s, c - 1);
      PeaksStep(f, d, n, b, s, c - 1);
      var list := PeaksBefore(f, d, n, b, s, c - 1);
      forall i | 0 <= i < |list|
        ensures Precedes(list[i].block, list[i].shiftIndex, list[i].column, b, s, Lo(f, n) + c - 1)
      {
        assert list[i] in list;
        PeakMembers(f, d, n, b, s, c - 1, list[i]);
      }
      hide PeaksBefore, StoredPeak, Z;
    } else if s > 0 {
      PeaksOrdered(f, d, n, b, s - 1, Length(f, n));
      PeaksEnds(f, d, n, b);
    } else if b > 0 {
      PeaksOrdered(f, d, n, b - 1, 2 * n - 1, 0);
      PeaksEnds(f, d, n, b - 1);
    } else {
      PeaksEnds(f, d, n, 0);
    }
  }
}
