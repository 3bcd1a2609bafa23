/**
 The line peak kernel and its NumPy reference agree on every frame exactly when the detection level and the
 count threshold are positive.
 */
module RadonMismatch {
  import opened OrderStatistics
  import opened Radon
  import opened RadonPeaks
  import opened RadonReference
  import opened RadonBalance
  import opened Reals

  // ----- a frame with two bright rows -----

  /** A square frame whose first and last rows are bright, without line weights. */
  function Bars(v: real, n: nat): Frame {
    Frame(seq(n, y => seq(n, _ => if y == 0 || y == n - 1 then v else 0.0)), seq(n, _ => seq(n, _ => 0)), n, n, n)
  }

  predicate IsCanvas(n: nat) { 2 <= n <= CANVAS && PowerOfTwo(n) }

  /** A bright sample at a padded column. */
  function Bright(v: real, n: nat, x: int): real { if n <= x < 2 * n then v else 0.0 }

  lemma BarsCell(v: real, n: nat, row: int, x: int)
    requires IsCanvas(n)
    ensures Bars(v, n).Valid()
    ensures Cell(Bars(v, n), row, x) == if row == 0 || row == n - 1 then Line(Bright(v, n, x), 0) else Zero
  {}

  /** What a line of all rows adds up to: its first and its last sample. */
  function Hit(v: real, n: nat, shiftIndex: nat, x: int): real {
    Bright(v, n, x) + Bright(v, n, x + shiftIndex - (n - 1))
  }

  /** Between the two rows a line adds nothing. */
  lemma {:induction false} BarsPart(v: real, n: nat, s: int, x: int, k: nat)
    requires IsCanvas(n) && -(n as int) < s < n && 0 < k < n
    ensures Bars(v, n).Valid() && LineSum(Bars(v, n), n, s, 0, x, k) == Line(Bright(v, n, x), 0)
  {
    hide *;
    var f := Bars(v, n);
    CanvasSize(n);
    BarsCell(v, n, k - 1, x + Offset(n, s, k - 1));
    LineSumStep(f, n, s, 0, x, k - 1);
    if k > 1 {
      BarsPart(v, n, s, x, k - 1);
      PlusZero(Line(Bright(v, n, x), 0));
    } else {
      LineSumNone(f, n, s, 0, x);
      LineShape(n, s);
      ZeroPlus(Line(Bright(v, n, x), 0));
    }
  }

  lemma CanvasSize(n: nat)
    requires IsCanvas(n)
    ensures 2 <= n <= CANVAS && PowerOfTwo(n)
  {}

  lemma ZeroPlus(a: Line)
    ensures Plus(Zero, a) == a
  {}

  lemma BarsLine(v: real, n: nat, shiftIndex: nat, x: int)
    requires IsCanvas(n) && shiftIndex < 2 * n - 1
    ensures Bars(v, n).Valid() && PowerOfTwo(n)
    ensures LineAt(Bars(v, n), n, 0, shiftIndex, x) == Line(Hit(v, n, shiftIndex, x), 0)
  {
    hide *;
    var f, s := Bars(v, n), shiftIndex - (n - 1);
    CanvasSize(n);
    BarsCell(v, n, n - 1, x + s);
    BarsPart(v, n, s, x, n - 1);
    LineSumStep(f, n, s, 0, x, n - 1);
    LineShape(n, s);
    DenseIsLineSum(f, n, 0, s, x);
    BarsSum(f, n, v, shiftIndex, x, LineSum(f, n, s, 0, x, n));
  }

  lemma BarsSum(f: Frame, n: nat, v: real, shiftIndex: nat, x: int, line: Line)
    requires f.Valid() && PowerOfTwo(n) && shiftIndex < 2 * n - 1 && 0 * n == 0
    requires Dense(f, n, 0, shiftIndex - (n - 1), x) == line
    requires line == Plus(Line(Bright(v, n, x), 0), Line(Bright(v, n, x + (shiftIndex - (n - 1))), 0))
    ensures LineAt(f, n, 0, shiftIndex, x) == Line(Hit(v, n, shiftIndex, x), 0)
  {
    hide Dense, Bright, PowerOfTwo;
  }

  // ----- its samples -----

  /** Parameters without a count threshold that accept the frame. */
  predicate Unlimited(d: Detection, n: nat) {
    2 <= d.minimumRows <= n && PowerOfTwo(d.minimumRows) && d.minimumCount == 0.0 && d.minimumCoverage == 0.0
  }

  lemma BarsIsValid(d: Detection, v: real, n: nat)
    requires IsCanvas(n) && d.Sound() && Unlimited(d, n)
    ensures d.Valid(Bars(v, n)) && d.Threshold(n) == 0.0
  {
    BarsCell(v, n, 0, 0);
  }

  lemma Cancel(v: real, k: real, r: real)
    requires r > 0.0 && v == k * r
    ensures v / r == k && (v + v) / r == k + k && 0.0 / r == 0.0
  {}

  lemma HitOver(v: real, k: real, r: real, n: nat, s: nat, x: int)
    requires r > 0.0 && v == k * r
    ensures Hit(v, n, s, x) / r == Hit(k, n, s, x)
  {
    Cancel(v, k, r);
  }

  lemma BarsRaw(d: Detection, v: real, k: real, n: nat, s: nat, x: int)
    requires IsCanvas(n) && d.Sound() && Unlimited(d, n) && v == k * d.root(1.0) && s < 2 * n - 1
    ensures d.Valid(Bars(v, n)) && PowerOfTwo(n) && IsValidLine(Bars(v, n), d, n, 0, s, x)
    ensures RawAt(Bars(v, n), d, n, 0, s, x) == Hit(k, n, s, x)
  {
    hide LineAt, PowerOfTwo, Hit, Bars, IsCanvas, Unlimited;
    BarsLine(v, n, s, x);
    BarsIsValid(d, v, n);
    UncountedRaw(d, n, LineAt(Bars(v, n), n, 0, s, x));
    HitOver(v, k, d.root(1.0), n, s, x);
  }

  lemma UncountedRaw(d: Detection, n: nat, line: Line)
    requires d.Sound() && d.Threshold(n) == 0.0 && line.count == 0
    ensures d.root(1.0) > 0.0 && d.RawZ(n, line) == line.sum / d.root(1.0)
  {}

  lemma Geometry(v: real, n: nat)
    requires IsCanvas(n)
    ensures var f := Bars(v, n);
      f.Valid() && f.size == f.width == n && Lo(f, n) == 1 && Length(f, n) == 3 * n - 2 && Columns(f) == 3 * n
        && ActiveBlocks(f, n) == 1 && Blocks(f, n) == 1 && n <= f.size && PowerOfTwo(n)
  {
    BarsCell(v, n, 0, 0);
    OneBlock(n);
  }

  lemma OneBlock(n: nat)
    requires n > 0
    ensures (n + n - 1) / n == 1 && n / n == 1
  {}

  // ----- how many lines meet no row, one row and both -----

  /** The columns of the lines of a shift index that meet both rows. */
  function BothFrom(n: nat, s: nat): int { n + if s < n - 1 then n - 1 - s else 0 }

  function BothTo(n: nat, s: nat): int { 2 * n - if s > n - 1 then s - (n - 1) else 0 }

  lemma HitKind(k: real, n: nat, s: nat, x: int)
    requires n >= 2 && s < 2 * n - 1 && k > 0.0
    ensures var f := Bars(k, n); Hit(k, n, s, x) == if BothFrom(n, s) <= x < BothTo(n, s) then k + k
      else if From(f, n, s) <= x < To(f, n, s) then k else 0.0
  {}

  lemma CountAppend(s: seq<real>, a: real, v: real)
    ensures CountBelow(s + [a], v) == CountBelow(s, v) + if a < v then 1 else 0
    ensures CountUpTo(s + [a], v) == CountUpTo(s, v) + if a <= v then 1 else 0
  {
    assert (s + [a])[..|s|] == s;
  }

  /** The stored lines before a position, those below k, and those above it. */
  predicate Tally(sample: seq<real>, k: real, n: nat, s: nat, c: int, any: int, both: int) {
    && n > 0 && |sample| == Multiple(s, 3 * n - 2) + c
    && CountBelow(sample, k) == Multiple(s, 2 * n - 2) - TiltSum(n, s) + c - any
    && |sample| - CountUpTo(sample, k) == Multiple(s, n) - TiltSum(n, s) + both
  }

  lemma TallyStep(sample: seq<real>, k: real, n: nat, s: nat, c: int, any: int, both: int, value: real)
    requires Tally(sample, k, n, s, c, any, both) && (value == 0.0 || value == k || value == k + k) && k > 0.0
    ensures Tally(sample + [value], k, n, s, c + 1, if value == 0.0 then any else any + 1,
                  if value == k + k then both + 1 else both)
  {
    CountAppend(sample, value, k);
    hide CountBelow, CountUpTo, Multiple, TiltSum;
  }

  lemma RowOfLines(k: real, n: nat, s: nat)
    requires n >= 2 && s < 2 * n - 1
    ensures var f, c := Bars(k, n), 3 * n - 2;
      && From(f, n, s) <= To(f, n, s) && BothFrom(n, s) <= BothTo(n, s)
      && Within(1, From(f, n, s), To(f, n, s)) == 0 && Within(1, BothFrom(n, s), BothTo(n, s)) == 0
      && Within(1 + c, From(f, n, s), To(f, n, s)) == n + Tilt(n, s)
      && Within(1 + c, BothFrom(n, s), BothTo(n, s)) == n - Tilt(n, s)
  {}

  lemma TallyRow(sample: seq<real>, k: real, n: nat, s: nat)
    requires n >= 2 && Tally(sample, k, n, s, 3 * n - 2, n + Tilt(n, s), n - Tilt(n, s))
    ensures Tally(sample, k, n, s + 1, 0, 0, 0)
  {
    hide CountBelow, CountUpTo, Tilt;
  }

  lemma TallyNone(k: real, n: nat)
    requires n >= 2
    ensures Tally([], k, n, 0, 0, 0, 0)
  {}

  lemma {:induction false} StoredTally(d: Detection, v: real, k: real, n: nat, s: nat, c: nat)
    requires IsCanvas(n) && d.Sound() && Unlimited(d, n) && v == k * d.root(1.0) && k > 0.0 && s < 2 * n - 1
      && c <= 3 * n - 2
    ensures var f := Bars(v, n);
      && d.Valid(f) && PowerOfTwo(n) && Length(f, n) == 3 * n - 2
      && Tally(Sample(f, d, n, 0, s, c), k, n, s, c, Within(1 + c, From(Bars(k, n), n, s), To(Bars(k, n), n, s)),
               Within(1 + c, BothFrom(n, s), BothTo(n, s)))
    decreases s, c
  {
    hide *;
    CanvasSize(n);
    Geometry(v, n);
    BarsIsValid(d, v, n);
    RowOfLines(k, n, s);
    SampleEnds(Bars(v, n), d, n, 0);
    if c > 0 {
      StoredTally(d, v, k, n, s, c - 1);
      BarsRaw(d, v, k, n, s, c);
      SampleStep(Bars(v, n), d, n, 0, s, c - 1);
      HitKind(k, n, s, c);
      WithinStep(c, From(Bars(k, n), n, s), To(Bars(k, n), n, s));
      WithinStep(c, BothFrom(n, s), BothTo(n, s));
      BothInside(k, n, s, c);
      TallyStep(Sample(Bars(v, n), d, n, 0, s, c - 1), k, n, s, c - 1,
                Within(c, From(Bars(k, n), n, s), To(Bars(k, n), n, s)), Within(c, BothFrom(n, s), BothTo(n, s)),
                Hit(k, n, s, c));
    } else if s > 0 {
      StoredTally(d, v, k, n, s - 1, 3 * n - 2);
      SampleRowEnd(Bars(v, n), d, n, 0, s - 1);
      RowOfLines(k, n, s - 1);
      TallyRow(Sample(Bars(v, n), d, n, 0, s - 1, 3 * n - 2), k, n, s - 1);
    } else {
      TallyNone(k, n);
    }
  }

  lemma BothInside(k: real, n: nat, s: nat, x: int)
    requires n >= 2 && s < 2 * n - 1
    ensures BothFrom(n, s) <= x < BothTo(n, s) ==> From(Bars(k, n), n, s) <= x < To(Bars(k, n), n, s)
  {}

  /** Of all stored lines fewer than half are zero, fewer than half k and fewer than half twice k. */
  lemma TallyTotal(sample: seq<real>, k: real, n: nat)
    requires n >= 2 && Tally(sample, k, n, 2 * n - 1, 0, 0, 0)
    ensures |sample| == (2 * n - 1) * (3 * n - 2) && 2 * CountBelow(sample, k) < |sample| < 2 * CountUpTo(sample, k)
    ensures 2 * (CountUpTo(sample, k) - CountBelow(sample, k)) < |sample|
  {
    MultipleIs(2 * n - 1, 3 * n - 2);
    MultipleIs(2 * n - 1, 2 * n - 2);
    MultipleIs(2 * n - 1, n);
    TiltTotal(n);
    hide *;
    Squares(n, n * n);
  }

  lemma Squares(n: nat, m: nat)
    requires m == n * n && n >= 2
    ensures (2 * n - 1) * (3 * n - 2) == 6 * m - 7 * n + 2 && (2 * n - 1) * (2 * n - 2) == 4 * m - 6 * n + 2
    ensures (2 * n - 1) * n == 2 * m - n && n * (n - 1) == m - n && m >= 2 * n
  {}

  // ----- the two scales -----

  predicate Kinds(s: seq<real>, k: real) {
    forall i :: 0 <= i < |s| ==> s[i] == 0.0 || s[i] == k || s[i] == k + k
  }

  /** Every value is zero, k or twice k, so the deviations from k are zero and k. */
  lemma {:induction false} DeviationCounts(s: seq<real>, k: real)
    requires k > 0.0 && Kinds(s, k)
    ensures CountBelow(Deviations(s, k), k) == CountUpTo(s, k) - CountBelow(s, k)
    ensures CountUpTo(Deviations(s, k), k) == |s|
  {
    hide *;
    if s != [] {
      var n := |s| - 1;
      KindsFront(s, k, n);
      DeviationCounts(s[..n], k);
      DeviationsFront(s, k, n);
      CountAppend(s[..n], s[n], k);
      CountAppend(Deviations(s[..n], k), Abs(s[n] - k), k);
      OneDeviation(s[n], k);
    } else {
      NoDeviations(k);
    }
  }

  lemma KindsFront(s: seq<real>, k: real, n: nat)
    requires Kinds(s, k) && |s| == n + 1
    ensures Kinds(s[..n], k) && s == s[..n] + [s[n]] && (s[n] == 0.0 || s[n] == k || s[n] == k + k)
  {}

  lemma DeviationsFront(s: seq<real>, k: real, n: nat)
    requires |s| == n + 1
    ensures Deviations(s, k) == Deviations(s[..n], k) + [Abs(s[n] - k)]
  {}

  lemma OneDeviation(v: real, k: real)
    requires k > 0.0 && (v == 0.0 || v == k || v == k + k)
    ensures Abs(v - k) == if v == k then 0.0 else k
  {}

  lemma NoDeviations(k: real)
    ensures Deviations([], k) == [] && CountBelow([], k) == CountUpTo([], k) == 0
  {}

  lemma {:induction false} StoredKinds(d: Detection, v: real, k: real, n: nat, s: nat, c: nat)
    requires IsCanvas(n) && d.Sound() && Unlimited(d, n) && v == k * d.root(1.0) && k > 0.0 && s < 2 * n - 1
      && c <= 3 * n - 2
    ensures var f := Bars(v, n);
      d.Valid(f) && PowerOfTwo(n) && Length(f, n) == 3 * n - 2 && Kinds(Sample(f, d, n, 0, s, c), k)
    decreases s, c
  {
    hide *;
    CanvasSize(n);
    Geometry(v, n);
    BarsIsValid(d, v, n);
    SampleEnds(Bars(v, n), d, n, 0);
    if c > 0 {
      StoredKinds(d, v, k, n, s, c - 1);
      BarsRaw(d, v, k, n, s, c);
      SampleStep(Bars(v, n), d, n, 0, s, c - 1);
      HitKind(k, n, s, c);
      KindsAppend(Sample(Bars(v, n), d, n, 0, s, c - 1), k, Hit(k, n, s, c));
    } else if s > 0 {
      StoredKinds(d, v, k, n, s - 1, 3 * n - 2);
      SampleRowEnd(Bars(v, n), d, n, 0, s - 1);
    } else {
      KindsNone(k);
    }
  }

  lemma KindsNone(k: real)
    ensures Kinds([], k)
  {}

  lemma KindsAppend(s: seq<real>, k: real, value: real)
    requires Kinds(s, k) && (value == 0.0 || value == k || value == k + k)
    ensures Kinds(s + [value], k)
  {}

  /** The stored sample's median and deviation are k. */
  lemma StoredScale(d: Detection, v: real, k: real, n: nat)
    requires IsCanvas(n) && d.Sound() && Unlimited(d, n) && v == k * d.root(1.0) && k > 0.0
    ensures d.Valid(Bars(v, n)) && PowerOfTwo(n)
    ensures var sample := LevelSample(Bars(v, n), d, n);
      |sample| == (2 * n - 1) * (3 * n - 2) > 0 && Median(sample) == k && Mad(sample, k) == k
  {
    hide *;
    CanvasSize(n);
    var f := Bars(v, n);
    var last := 2 * n - 2;
    StoredTally(d, v, k, n, last, 3 * n - 2);
    StoredKinds(d, v, k, n, last, 3 * n - 2);
    Geometry(v, n);
    RowOfLines(k, n, last);
    ScaleOfTally(Sample(f, d, n, 0, last, 3 * n - 2), k, n);
    LevelIs(f, d, n);
  }

  lemma LevelIs(f: Frame, d: Detection, n: nat)
    requires d.Valid(f) && PowerOfTwo(n) && ActiveBlocks(f, n) == 1
    ensures LevelSample(f, d, n) == Sample(f, d, n, 0, 2 * n - 2, Length(f, n))
  {
    SampleEnds(f, d, n, 0);
    hide PowerOfTwo, Sample;
    assert 2 * n - 2 + 1 == 2 * n - 1;
  }

  lemma ScaleOfTally(sample: seq<real>, k: real, n: nat)
    requires n >= 2 && k > 0.0 && Kinds(sample, k)
    requires Tally(sample, k, n, 2 * n - 2, 3 * n - 2, n + Tilt(n, 2 * n - 2), n - Tilt(n, 2 * n - 2))
    ensures |sample| == (2 * n - 1) * (3 * n - 2) > 0 && Median(sample) == k && Mad(sample, k) == k
  {
    hide CountBelow, CountUpTo, Tally, Tilt;
    TallyRow(sample, k, n, 2 * n - 2);
    TallyTotal(sample, k, n);
    MedianFromCounts(sample, k);
    DeviationCounts(sample, k);
    MedianFromCounts(Deviations(sample, k), k);
  }

  lemma ScaledDivisor(d: Detection, s: seq<real>, k: real)
    requires s != [] && d.minimumScaleSamples <= |s| && Median(s) == k && Mad(s, k) == k && k > 0.0
    ensures Divisor(d, s) == 1.4826 * k
  {
    hide Median, Mad;
  }

  /** The kernel divides by 1.4826 k, the reference by 1. */
  lemma Divisors(d: Detection, v: real, k: real, n: nat)
    requires IsCanvas(n) && d.Sound() && Unlimited(d, n) && v == k * d.root(1.0) && k > 0.0
      && d.minimumScaleSamples <= (2 * n - 1) * (3 * n - 2)
    ensures d.Valid(Bars(v, n)) && PowerOfTwo(n) && n <= Bars(v, n).size
    ensures Divisor(d, LevelSample(Bars(v, n), d, n)) == 1.4826 * k
    ensures Divisor(d, ArraySample(Bars(v, n), d, n)) == 1.0
  {
    hide *;
    Geometry(v, n);
    BarsIsValid(d, v, n);
    StoredScale(d, v, k, n);
    ScaledDivisor(d, LevelSample(Bars(v, n), d, n), k);
    ArrayDivisor(Bars(v, n), d, n);
  }

  // ----- the peak of one search that the other does not find -----

  const SHARE: real := 1.0 / 1.4826

  lemma ZParts(f: Frame, d: Detection, n: nat, block: nat, shiftIndex: nat, x: int)
    requires d.Valid(f) && PowerOfTwo(n) && n <= f.size && shiftIndex < 2 * n - 1 && Padded(f, x)
    ensures Z(f, d, n, block, shiftIndex, x) == RawAt(f, d, n, block, shiftIndex, x) / Divisor(d, LevelSample(f, d, n))
    ensures DenseZ(f, d, n, block, shiftIndex, x)
      == RawAt(f, d, n, block, shiftIndex, x) / Divisor(d, ArraySample(f, d, n))
  {
    hide LineAt, Divisor, LevelSample, ArraySample, PowerOfTwo;
  }

  lemma Shorten(k: real, n: nat, shiftIndex: nat, x: int)
    requires k > 0.0
    ensures Hit(k, n, shiftIndex, x) / (1.4826 * k) == Hit(SHARE, n, shiftIndex, x)
      && Hit(k, n, shiftIndex, x) / 1.0 == Hit(k, n, shiftIndex, x)
  {
    assert k == SHARE * (1.4826 * k);
    assert k + k == (SHARE + SHARE) * (1.4826 * k);
    assert 0.0 / (1.4826 * k) == 0.0;
  }

  /** In the kernel the values do not depend on the samples' size, in the reference they are the samples. */
  lemma BarsZ(d: Detection, v: real, k: real, n: nat, shiftIndex: nat, x: int)
    requires IsCanvas(n) && d.Sound() && Unlimited(d, n) && v == k * d.root(1.0) && k > 0.0
      && d.minimumScaleSamples <= (2 * n - 1) * (3 * n - 2)
    requires shiftIndex < 2 * n - 1 && Padded(Bars(v, n), x)
    ensures d.Valid(Bars(v, n)) && PowerOfTwo(n) && n <= Bars(v, n).size
    ensures Z(Bars(v, n), d, n, 0, shiftIndex, x) == Hit(SHARE, n, shiftIndex, x)
    ensures DenseZ(Bars(v, n), d, n, 0, shiftIndex, x) == Hit(k, n, shiftIndex, x)
  {
    hide *;
    Divisors(d, v, k, n);
    BarsRaw(d, v, k, n, shiftIndex, x);
    ZParts(Bars(v, n), d, n, 0, shiftIndex, x);
    Shorten(k, n, shiftIndex, x);
  }

  lemma HitTop(v: real, n: nat, shiftIndex: nat, x: int)
    requires v > 0.0 && n >= 2
    ensures Hit(v, n, n - 1, n) == v + v && Hit(v, n, shiftIndex, x) <= v + v
  {}

  /**
   A line straight through both rows is a maximum for both searches; they differ in what they compare with the level.
   */
  lemma BarsTop(d: Detection, v: real, k: real, n: nat)
    requires IsCanvas(n) && d.Sound() && Unlimited(d, n) && v == k * d.root(1.0) && k > 0.0
      && d.minimumScaleSamples <= (2 * n - 1) * (3 * n - 2)
    ensures d.Valid(Bars(v, n)) && PowerOfTwo(n) && n <= Bars(v, n).size
    ensures StoredPeak(Bars(v, n), d, n, 0, n - 1, n) <==> SHARE + SHARE >= d.detectionZ
    ensures DensePeak(Bars(v, n), d, n, 0, n - 1, n) <==> k + k >= d.detectionZ
  {
    hide Z, DenseZ, PowerOfTwo, Hit, Detection.Valid, Frame.Valid, ActiveBlocks, Blocks, IsCanvas, Unlimited, Bars;
    CanvasSize(n);
    var f := Bars(v, n);
    Geometry(v, n);
    assert SHARE > 0.0;
    HitTop(SHARE, n, 0, 0);
    HitTop(k, n, 0, 0);
    assert Padded(f, n) && Inside(f, n, 0, n);
    BarsZ(d, v, k, n, n - 1, n);
    forall s: nat, c: int | s < 2 * n - 1 && Padded(f, c)
      ensures Z(f, d, n, 0, s, c) <= SHARE + SHARE && DenseZ(f, d, n, 0, s, c) <= k + k
    {
      BarsZ(d, v, k, n, s, c);
      HitTop(SHARE, n, s, c);
      HitTop(k, n, s, c);
    }
  }

  /** A sample size at which exactly one of the two searches reports that line. */
  function Telling(level: real): real {
    if SHARE + SHARE >= level then level / 4.0 else level
  }

  lemma TellingTells(level: real)
    requires level > 0.0
    ensures var k := Telling(level); k > 0.0 && ((SHARE + SHARE >= level) <==> !(k + k >= level))
  {}

  lemma OnePeakDiffers(f: Frame, d: Detection, n: nat, block: nat, shiftIndex: nat, x: int)
    requires d.Valid(f) && PowerOfTwo(n) && n <= f.size && shiftIndex < 2 * n - 1
    requires StoredPeak(f, d, n, block, shiftIndex, x) <==> !DensePeak(f, d, n, block, shiftIndex, x)
    ensures !Agree(f, d, n)
  {
    if StoredPeak(f, d, n, block, shiftIndex, x) {
      hide StoredPeak, DensePeak, Z, DenseZ;
      var p := Peak(n, block, shiftIndex, x, Z(f, d, n, block, shiftIndex, x));
      assert Reports(f, d, n, p) && !DenseReports(f, d, n, p);
    } else {
      PeakPadded(f, d, n, block, shiftIndex, x);
      hide StoredPeak, DensePeak, Z, DenseZ;
      var p := Peak(n, block, shiftIndex, x, DenseZ(f, d, n, block, shiftIndex, x));
      assert DenseReports(f, d, n, p) && !Reports(f, d, n, p);
    }
  }

  /** Without a count threshold the two searches differ on such a frame, if its lines suffice for a scale. */
  lemma ZeroThresholdDiffers(d: Detection, n: nat, k: real, v: real)
    requires IsCanvas(n) && d.Sound() && Unlimited(d, n) && d.detectionZ > 0.0
      && d.minimumScaleSamples <= (2 * n - 1) * (3 * n - 2)
    requires k == Telling(d.detectionZ) && v == k * d.root(1.0)
    ensures d.Valid(Bars(v, n)) && PowerOfTwo(n) && n <= Bars(v, n).size && !Agree(Bars(v, n), d, n)
  {
    hide *;
    CanvasSize(n);
    TellingTells(d.detectionZ);
    BarsTop(d, v, k, n);
    OnePeakDiffers(Bars(v, n), d, n, 0, n - 1, n);
  }

  // ----- exactly when the reports agree -----

  /** On every frame and reported level. */
  ghost predicate AlwaysAgree(d: Detection) {
    forall f, n: nat :: AgreeOn(f, d, n)
  }

  ghost predicate AgreeOn(f: Frame, d: Detection, n: nat) {
    d.Valid(f) && PowerOfTwo(n) && d.minimumRows <= n <= f.size ==> Agree(f, d, n)
  }

  lemma PositiveThreshold(d: Detection, n: nat)
    requires d.Sound() && n > 0 && (d.minimumCount > 0.0 || d.minimumCoverage > 0.0)
    ensures d.Threshold(n) > 0.0
  {
    if d.minimumCoverage > 0.0 {
      assert d.minimumCoverage * n as real > 0.0;
    }
  }

  /** A positive detection level and a positive count threshold. */
  predicate Positive(d: Detection) {
    d.detectionZ > 0.0 && (d.minimumCount > 0.0 || d.minimumCoverage > 0.0)
  }

  lemma PositiveAlways(f: Frame, d: Detection, n: nat)
    requires d.Valid(f) && PowerOfTwo(n) && 0 < n <= f.size && Positive(d)
    ensures Agree(f, d, n)
  {
    hide Agree, PowerOfTwo, Frame.Valid;
    PositiveThreshold(d, n);
    PositiveAgree(f, d, n);
  }

  lemma Refuted(d: Detection, f: Frame, n: nat)
    requires d.Valid(f) && PowerOfTwo(n) && d.minimumRows <= n <= f.size && !Agree(f, d, n)
    ensures !AlwaysAgree(d)
  {
    hide Agree, PowerOfTwo, Detection.Valid;
    assert !AgreeOn(f, d, n);
  }

  /** The request check accepts this number of rows for some frame. */
  predicate Accepted(d: Detection) { 2 <= d.minimumRows <= CANVAS && PowerOfTwo(d.minimumRows) }

  /**
   With given parameters the kernel reports on every frame what the reference does exactly when the detection level
   and the count threshold are positive: the greatest canvas has lines enough for every 32-bit sample minimum.
   */
  lemma AgreeIffPositive(d: Detection)
    requires d.Sound() && Accepted(d)
    ensures AlwaysAgree(d) <==> d.detectionZ > 0.0 && (d.minimumCount > 0.0 || d.minimumCoverage > 0.0)
  {
    hide Agree, PowerOfTwo, Bars, Detection.Valid, Telling, Accepted;
    if Positive(d) {
      forall f, n: nat
        ensures AgreeOn(f, d, n)
      {
        if d.Valid(f) && PowerOfTwo(n) && d.minimumRows <= n <= f.size {
          RowsPositive(d, f);
          PositiveAlways(f, d, n);
        }
      }
    } else {
      Unlike(d);
    }
  }

  lemma RowsPositive(d: Detection, f: Frame)
    requires d.Valid(f)
    ensures d.minimumRows > 0
  {}

  /** Otherwise the greatest canvas has a frame that tells the two apart. */
  lemma Unlike(d: Detection)
    requires d.Sound() && Accepted(d) && !Positive(d)
    ensures !AlwaysAgree(d)
  {
    CanvasIsPower();
    var n: nat := CANVAS;
    var k := Telling(d.detectionZ);
    var v := k * d.root(1.0);
    assert IsCanvas(n) && d.minimumRows <= n && d.minimumScaleSamples <= (2 * n - 1) * (3 * n - 2);
    hide Agree, PowerOfTwo, Bars, Telling, AlwaysAgree, IsCanvas;
    if d.detectionZ > 0.0 {
      ZeroThresholdDiffers(d, n, k, v);
      Refuted(d, Bars(v, n), n);
    } else {
      BlankDiffers(d, n);
    }
  }

  lemma BlankDiffers(d: Detection, n: nat)
    requires IsCanvas(n) && d.Sound() && d.detectionZ <= 0.0 && 2 <= d.minimumRows <= n && PowerOfTwo(d.minimumRows)
    ensures !AlwaysAgree(d)
  {
    Geometry(0.0, n);
    var f := Bars(0.0, n);
    assert d.Valid(f);
    hide Agree, AlwaysAgree, PowerOfTwo, Bars;
    ZeroPeakIsLost(f, d, n);
    BlankSize(f);
    Refuted(d, Blank(f), n);
  }

  lemma BlankSize(f: Frame)
    ensures Blank(f).size == f.size
  {}

  /** One level's list is then exactly the reference's, in the reference's order. */
  lemma LevelPeaksAreDense(f: Frame, d: Detection, n: nat, p: Peak)
    requires d.Valid(f) && PowerOfTwo(n) && 0 < n <= f.size && Positive(d)
    ensures p in LevelPeaks(f, d, n) <==> DenseReports(f, d, n, p)
    ensures Ordered(LevelPeaks(f, d, n))
  {
    hide PeaksBefore, DenseReports, Positive;
    PositiveAlways(f, d, n);
    LevelMembers(f, d, n, p);
  }

  lemma LevelMembers(f: Frame, d: Detection, n: nat, p: Peak)
    requires d.Valid(f) && PowerOfTwo(n)
    ensures p in LevelPeaks(f, d, n) <==> Reports(f, d, n, p)
    ensures Ordered(LevelPeaks(f, d, n))
  {
    hide PeaksBefore;
    PeakMembers(f, d, n, ActiveBlocks(f, n), 0, 0, p);
    PeaksOrdered(f, d, n, ActiveBlocks(f, n), 0, 0);
  }

  /** And the whole list is exactly the reference's peaks of the levels of minimumRows rows and more. */
  lemma {:induction false} AllPeaksAreDense(f: Frame, d: Detection, n: nat, p: Peak)
    requires d.Valid(f) && PowerOfTwo(n) && Positive(d)
    ensures p in PeaksFrom(f, d, n)
        <==> d.minimumRows <= p.level <= f.size && n <= p.level && PowerOfTwo(p.level) && DenseReports(f, d, p.level, p)
    decreases f.size + 1 - n
  {
    hide Positive;
    if n > f.size {
    } else {
      assert 2 * n / 2 == n;
      AllPeaksAreDense(f, d, 2 * n, p);
      LevelPeaksAreDense(f, d, n, p);
      if PowerOfTwo(p.level) && n < p.level {
        PowerDivides(n, p.level);
      }
    }
  }
}
