/**
 The NumPy reference of the line peak kernel (packages/engine/src/ufwbpp/stacking/transient_rejection.py):
 the transform, the standardisation and the peaks on the whole padded array, and exactly when the kernel
 reports the same peaks.
 */
module RadonReference {
  import opened Arithmetic
  import opened Radon
  import opened RadonPeaks

  // ----- the transform on the padded array -----

  /** Padded columns of the array: the image with `size` columns on either side. */
  function Columns(f: Frame): nat {
    f.width + 2 * f.size
  }

  predicate Padded(f: Frame, x: int) {
    0 <= x < Columns(f)
  }

  /** np.clip of a shifted column to the array. */
  function Clamp(f: Frame, x: int): int {
    if x < 0 then 0 else if x >= Columns(f) then Columns(f) - 1 else x
  }

  /** fast_radon_levels: a shift past the array reads its edge column. */
  ghost function Reference(f: Frame, n: nat, b: nat, s: int, x: int): Line
    requires f.Valid() && PowerOfTwo(n) && -(n as int) < s < n
    decreases n
  {
    if n == 1 then Cell(f, b, x)
    else
      var h, t := n / 2, Half(s);
      Plus(Reference(f, h, 2 * b, t, x), Reference(f, h, 2 * b + 1, t, Clamp(f, x + (s - t))))
  }

  lemma ReferenceStep(f: Frame, n: nat, b: nat, s: int, x: int)
    requires f.Valid() && PowerOfTwo(n) && n > 1 && -(n as int) < s < n
    ensures PowerOfTwo(n / 2) && -(n as int) < 2 * Half(s) < n
    ensures var h, t := n / 2, Half(s); var y := x + (s - t);
        Dense(f, n, b, s, x) == Plus(Dense(f, h, 2 * b, t, x), Dense(f, h, 2 * b + 1, t, y))
        && Reference(f, n, b, s, x) == Plus(Reference(f, h, 2 * b, t, x), Reference(f, h, 2 * b + 1, t, Clamp(f, y)))
  {
    hide Cell, Plus, Clamp;
    DenseHalves(f, n, n / 2, b, s, x);
  }

  /** The edge columns of a level are zero where they are read, so the clamped array is the zero-extended one. */
  lemma {:induction false} ReferenceIsDense(f: Frame, n: nat, b: nat, s: int, x: int)
    requires f.Valid() && PowerOfTwo(n) && n <= f.size && -(n as int) < s < n && Padded(f, x)
    ensures Reference(f, n, b, s, x) == Dense(f, n, b, s, x)
    decreases n
  {
    if n > 1 {
      var h, t := n / 2, Half(s);
      var y := x + (s - t);
      ReferenceStep(f, n, b, s, x);
      hide Dense, Reference, PowerOfTwo, Cell, Clamp, Half, Plus;
      EdgeIsZero(f, h, 2 * b + 1, t, y);
      ReferenceIsDense(f, h, 2 * b, t, x);
      ReferenceIsDense(f, h, 2 * b + 1, t, Clamp(f, y));
    }
  }

  /** Whatever lies past the array, the line that starts there sums to zero, and so does the one at the edge. */
  lemma EdgeIsZero(f: Frame, h: nat, b: nat, t: int, y: int)
    requires f.Valid() && PowerOfTwo(h) && 2 * h <= f.size && -(h as int) < t < h
    ensures Padded(f, Clamp(f, y)) && Dense(f, h, b, t, Clamp(f, y)) == Dense(f, h, b, t, y)
  {
    hide Dense, PowerOfTwo;
    if !Padded(f, y) {
      DenseVanishes(f, h, b, t, y);
      DenseVanishes(f, h, b, t, Clamp(f, y));
    }
  }

  lemma LineIsReference(f: Frame, n: nat, block: nat, shiftIndex: nat, x: int)
    requires f.Valid() && PowerOfTwo(n) && n <= f.size && shiftIndex < 2 * n - 1 && Padded(f, x)
    ensures Reference(f, n, block, shiftIndex - (n - 1), x) == LineAt(f, n, block, shiftIndex, x)
  {
    hide Reference, Dense, PowerOfTwo, Cell;
    ReferenceIsDense(f, n, block, shiftIndex - (n - 1), x);
  }

  /** A line of the reference's array. */
  ghost function DenseLine(f: Frame, n: nat, block: nat, shiftIndex: nat, x: int): (line: Line)
    requires f.Valid() && PowerOfTwo(n) && n <= f.size && shiftIndex < 2 * n - 1 && Padded(f, x)
    ensures line == LineAt(f, n, block, shiftIndex, x)
  {
    LineIsReference(f, n, block, shiftIndex, x);
    Reference(f, n, block, shiftIndex - (n - 1), x)
  }

  // ----- standardisation over the whole array -----

  /** Blocks of the array. */
  function Blocks(f: Frame, n: nat): nat
    requires n > 0
  {
    f.size / n
  }

  lemma BlocksCover(f: Frame, n: nat)
    requires f.Valid() && PowerOfTwo(n) && n <= f.size
    ensures 0 < ActiveBlocks(f, n) <= Blocks(f, n)
  {
    PowerQuotient(n, f.size);
    assert f.size == Blocks(f, n) * n;
    CeilDiv(f.height, n, Blocks(f, n));
    CeilDiv(f.height, n, 0);
  }

  /** A smaller power of two divides a greater one. */
  lemma {:induction false} PowerQuotient(n: nat, m: nat)
    requires PowerOfTwo(n) && PowerOfTwo(m) && n <= m
    ensures m / n * n == m
  {
    if n > 1 {
      PowerQuotient(n / 2, m / 2);
      ExactDouble(m / 2 / (n / 2), n / 2, m / 2);
    } else {
      assert m / 1 == m;
    }
  }

  lemma ExactDouble(q: nat, h: nat, k: nat)
    requires h > 0 && q * h == k
    ensures 2 * k / (2 * h) * (2 * h) == 2 * k
  {
    assert 2 * k == q * (2 * h);
    QuotientIs(q, 2 * h);
  }

  lemma QuotientIs(q: nat, d: nat)
    requires d > 0
    ensures q * d / d == q
  {
    var p := q * d;
    QuotientFrom(q, d, p, p / d);
  }

  lemma QuotientFrom(q: nat, d: nat, p: nat, r: nat)
    requires d > 0 && p == q * d && r * d <= p < r * d + d
    ensures r == q
  {
    if r < q {
      MulMonotone(r + 1, q, d);
    } else if q < r {
      MulMonotone(q + 1, r, d);
    }
  }

  ghost predicate DenseValid(f: Frame, d: Detection, n: nat, block: nat, shiftIndex: nat, x: int)
    requires f.Valid() && PowerOfTwo(n) && n <= f.size && shiftIndex < 2 * n - 1 && Padded(f, x)
  {
    DenseLine(f, n, block, shiftIndex, x).count as real >= d.Threshold(n)
  }

  ghost function DenseRaw(f: Frame, d: Detection, n: nat, block: nat, shiftIndex: nat, x: int): real
    requires d.Valid(f) && PowerOfTwo(n) && n <= f.size && shiftIndex < 2 * n - 1 && Padded(f, x)
  {
    d.RawZ(n, DenseLine(f, n, block, shiftIndex, x))
  }

  /** The values of the valid lines before position (b, s, x) of the array, in NumPy's order. */
  ghost function DenseSample(f: Frame, d: Detection, n: nat, b: nat, s: nat, x: nat): seq<real>
    requires d.Valid(f) && PowerOfTwo(n) && n <= f.size && s <= 2 * n - 1 && x <= Columns(f)
      && (s == 2 * n - 1 ==> x == 0)
    decreases b, s, x
  {
    if x > 0 then
      DenseSample(f, d, n, b, s, x - 1)
      + if DenseValid(f, d, n, b, s, x - 1) then [DenseRaw(f, d, n, b, s, x - 1)] else []
    else if s > 0 then DenseRowEnd(f, d, n, b, s - 1)
    else if b > 0 then DenseSample(f, d, n, b - 1, 2 * n - 1, 0)
    else []
  }

  ghost function DenseRowEnd(f: Frame, d: Detection, n: nat, b: nat, s: nat): seq<real>
    requires d.Valid(f) && PowerOfTwo(n) && n <= f.size && s < 2 * n - 1
    decreases b, s, Columns(f) + 1
  {
    DenseSample(f, d, n, b, s, Columns(f))
  }

  /** `z[valid]` of the whole level. */
  ghost function ArraySample(f: Frame, d: Detection, n: nat): seq<real>
    requires d.Valid(f) && PowerOfTwo(n) && n <= f.size
  {
    DenseSample(f, d, n, Blocks(f, n), 0, 0)
  }

  /** The reference's standardised value. */
  ghost function DenseZ(f: Frame, d: Detection, n: nat, block: nat, shiftIndex: nat, x: int): real
    requires d.Valid(f) && PowerOfTwo(n) && n <= f.size && shiftIndex < 2 * n - 1 && Padded(f, x)
  {
    DenseRaw(f, d, n, block, shiftIndex, x) / Divisor(d, ArraySample(f, d, n))
  }

  /** The stored columns before padded column x. */
  function StoredBefore(f: Frame, n: nat, x: int): nat
    requires 0 < n <= f.size
  {
    if x <= Lo(f, n) then 0 else if x >= Lo(f, n) + Length(f, n) then Length(f, n) else x - Lo(f, n)
  }

  /** With a positive count threshold the array's sample is the stored one: no line outside the layout is valid. */
  lemma {:induction false} SampleIsStored(f: Frame, d: Detection, n: nat, b: nat, s: nat, x: nat)
    requires d.Valid(f) && PowerOfTwo(n) && n <= f.size && s <= 2 * n - 1 && x <= Columns(f)
      && (s == 2 * n - 1 ==> x == 0)
    requires d.Threshold(n) > 0.0
    ensures b < ActiveBlocks(f, n) ==> DenseSample(f, d, n, b, s, x) == Sample(f, d, n, b, s, StoredBefore(f, n, x))
    ensures b >= ActiveBlocks(f, n) ==> DenseSample(f, d, n, b, s, x) == LevelSample(f, d, n)
    decreases b, s, x
  {
    hide PowerOfTwo, ActiveBlocks, LineAt, DenseLine;
    if x > 0 {
      SampleIsStored(f, d, n, b, s, x - 1);
      if Inside(f, n, b, x - 1) {
        SampleStep(f, d, n, b, s, x - 1 - Lo(f, n));
      } else {
        OutsideIsZero(f, d, n, b, s, x - 1);
      }
    } else if s > 0 {
      SampleIsStored(f, d, n, b, s - 1, Columns(f));
      SampleEnds(f, d, n, b);
    } else if b > 0 {
      SampleIsStored(f, d, n, b - 1, 2 * n - 1, 0);
      SampleEnds(f, d, n, b - 1);
    } else {
      BlocksCover(f, n);
      SampleEnds(f, d, n, 0);
    }
  }

  lemma ArraySampleIsStored(f: Frame, d: Detection, n: nat)
    requires d.Valid(f) && PowerOfTwo(n) && n <= f.size && d.Threshold(n) > 0.0
    ensures ArraySample(f, d, n) == LevelSample(f, d, n)
  {
    BlocksCover(f, n);
    SampleIsStored(f, d, n, Blocks(f, n), 0, 0);
  }

  // ----- peaks of the whole array -----

  /** At or above the detection level and the maximum of its window, clipped to the array. */
  ghost predicate DensePeak(f: Frame, d: Detection, n: nat, block: nat, shiftIndex: nat, x: int)
    requires d.Valid(f) && PowerOfTwo(n) && n <= f.size && shiftIndex < 2 * n - 1
  {
    && block < Blocks(f, n) && Padded(f, x) && DenseZ(f, d, n, block, shiftIndex, x) >= d.detectionZ
    && forall s: nat, c: int ::
         shiftIndex - 2 <= s <= shiftIndex + 2 && s < 2 * n - 1 && x - 3 <= c <= x + 3 && Padded(f, c)
         ==> DenseZ(f, d, n, block, s, c) <= DenseZ(f, d, n, block, shiftIndex, x)
  }

  /** `p` is a peak the reference lists for level n. */
  ghost predicate DenseReports(f: Frame, d: Detection, n: nat, p: Peak)
    requires d.Valid(f) && PowerOfTwo(n) && n <= f.size
  {
    && p.level == n && p.shiftIndex < 2 * n - 1 && DensePeak(f, d, n, p.block, p.shiftIndex, p.column)
    && p.z == DenseZ(f, d, n, p.block, p.shiftIndex, p.column)
  }

  lemma DenseZIs(f: Frame, d: Detection, n: nat, block: nat, shiftIndex: nat, x: int)
    requires d.Valid(f) && PowerOfTwo(n) && n <= f.size && shiftIndex < 2 * n - 1 && Padded(f, x)
    requires Divisor(d, ArraySample(f, d, n)) == Divisor(d, LevelSample(f, d, n))
    ensures DenseZ(f, d, n, block, shiftIndex, x) == Z(f, d, n, block, shiftIndex, x)
  {
    hide Divisor, PowerOfTwo, LineAt;
  }

  lemma InsideArray(f: Frame, n: nat, block: nat, x: int)
    requires f.Valid() && PowerOfTwo(n) && n <= f.size && Inside(f, n, block, x)
    ensures block < Blocks(f, n) && Padded(f, x)
  {
    BlocksCover(f, n);
  }

  /** For one divisor and a positive detection level, clipping the window to the stored layout changes no peak. */
  lemma ClippingIsExact(f: Frame, d: Detection, n: nat, block: nat, shiftIndex: nat, x: int)
    requires d.Valid(f) && PowerOfTwo(n) && n <= f.size && shiftIndex < 2 * n - 1 && d.detectionZ > 0.0
    requires Divisor(d, ArraySample(f, d, n)) == Divisor(d, LevelSample(f, d, n))
    ensures StoredPeak(f, d, n, block, shiftIndex, x) <==> DensePeak(f, d, n, block, shiftIndex, x)
  {
    hide Z, DenseZ, PowerOfTwo, Inside, Padded, Divisor;
    forall s: nat, c: int | s < 2 * n - 1 && Padded(f, c)
      ensures DenseZ(f, d, n, block, s, c) == Z(f, d, n, block, s, c)
    {
      DenseZIs(f, d, n, block, s, c);
    }
    forall s: nat, c: int | s < 2 * n - 1 && !Inside(f, n, block, c)
      ensures Z(f, d, n, block, s, c) == 0.0
    {
      OutsideIsZero(f, d, n, block, s, c);
    }
    forall c: int | Inside(f, n, block, c)
      ensures block < Blocks(f, n) && Padded(f, c)
    {
      InsideArray(f, n, block, c);
    }
  }

  /** The kernel and the reference report the same peaks of a level, with the same values. */
  ghost predicate Agree(f: Frame, d: Detection, n: nat)
    requires d.Valid(f) && PowerOfTwo(n) && n <= f.size
  {
    forall p :: Reports(f, d, n, p) <==> DenseReports(f, d, n, p)
  }

  /** With one divisor and a positive detection level they do. */
  lemma SameDivisorsAgree(f: Frame, d: Detection, n: nat)
    requires d.Valid(f) && PowerOfTwo(n) && n <= f.size && d.detectionZ > 0.0
    requires Divisor(d, ArraySample(f, d, n)) == Divisor(d, LevelSample(f, d, n))
    ensures Agree(f, d, n)
  {
    hide Z, DenseZ, PowerOfTwo, Divisor, StoredPeak, DensePeak;
    forall p: Peak
      ensures Reports(f, d, n, p) <==> DenseReports(f, d, n, p)
    {
      if p.shiftIndex < 2 * n - 1 {
        ClippingIsExact(f, d, n, p.block, p.shiftIndex, p.column);
        if DensePeak(f, d, n, p.block, p.shiftIndex, p.column) {
          PeakPadded(f, d, n, p.block, p.shiftIndex, p.column);
          DenseZIs(f, d, n, p.block, p.shiftIndex, p.column);
        }
      }
    }
  }

  /** With a positive count threshold the divisors are one, so the searches agree on every frame. */
  lemma PositiveAgree(f: Frame, d: Detection, n: nat)
    requires d.Valid(f) && PowerOfTwo(n) && n <= f.size && d.detectionZ > 0.0 && d.Threshold(n) > 0.0
    ensures Agree(f, d, n)
  {
    ArraySampleIsStored(f, d, n);
    hide Divisor, Agree, ArraySample, LevelSample, PowerOfTwo;
    SameDivisorsAgree(f, d, n);
  }

  lemma PeakPadded(f: Frame, d: Detection, n: nat, block: nat, shiftIndex: nat, x: int)
    requires d.Valid(f) && PowerOfTwo(n) && n <= f.size && shiftIndex < 2 * n - 1
      && DensePeak(f, d, n, block, shiftIndex, x)
    ensures Padded(f, x)
  {}

  // ----- without a positive detection level -----

  /** The empty frame of a geometry. */
  function Blank(f: Frame): Frame {
    f.(image := seq(f.height, _ => seq(f.width, _ => 0.0)), weight := seq(f.height, _ => seq(f.width, _ => 0)))
  }

  lemma BlankCell(f: Frame)
    requires f.Valid()
    ensures Blank(f).Valid() && forall row, x :: Cell(Blank(f), row, x) == Zero
  {}

  lemma {:induction false} AllZero(g: Frame, n: nat, b: nat, s: int, x: int)
    requires g.Valid() && PowerOfTwo(n) && -(n as int) < s < n && forall row, c :: Cell(g, row, c) == Zero
    ensures Dense(g, n, b, s, x) == Zero
    decreases n
  {
    hide *;
    if n > 1 {
      var h, t := n / 2, Half(s);
      DenseHalves(g, n, h, b, s, x);
      AllZero(g, h, 2 * b, t, x);
      AllZero(g, h, 2 * b + 1, t, x + (s - t));
      PlusZero(Zero);
    } else {
      DenseOne(g, n, b, s, x);
    }
  }

  lemma BlankZ(f: Frame, d: Detection, n: nat, s: nat, c: int)
    requires f.Valid() && Blank(f).Valid() && d.Valid(Blank(f)) && PowerOfTwo(n) && n <= f.size && s < 2 * n - 1
      && Padded(Blank(f), c)
    ensures DenseZ(Blank(f), d, n, 0, s, c) == 0.0
  {
    hide PowerOfTwo, Divisor, ArraySample, Dense, LineAt;
    BlankCell(f);
    AllZero(Blank(f), n, 0, s - (n - 1), c);
    ZeroLine(Blank(f), d, n, 0, s, c);
    ZeroOver(d.root(1.0));
    ZeroOver(Divisor(d, ArraySample(Blank(f), d, n)));
  }

  /** Padded column 0 of a blank frame is then a peak of the array that the kernel does not store. */
  lemma ZeroPeakIsLost(f: Frame, d: Detection, n: nat)
    requires d.Valid(f) && PowerOfTwo(n) && 1 < n <= f.size && d.detectionZ <= 0.0
    ensures d.Valid(Blank(f)) && !Agree(Blank(f), d, n)
  {
    hide DenseZ, PowerOfTwo, Z;
    BlankCell(f);
    var g := Blank(f);
    forall s: nat, c: int | s < 2 * n - 1 && Padded(g, c)
      ensures DenseZ(g, d, n, 0, s, c) == 0.0
    {
      BlankZ(f, d, n, s, c);
    }
    BlocksCover(g, n);
    var p := Peak(n, 0, 0, 0, 0.0);
    assert DenseReports(g, d, n, p) && !Reports(g, d, n, p);
  }

  /** Two frames of the same geometry. */
  ghost predicate SameGeometry(f: Frame, g: Frame) {
    g.Valid() && g.width == f.width && g.height == f.height && g.size == f.size
  }

  /** With a count threshold every geometry agrees on all its frames exactly when the detection level is positive. */
  lemma GeometryAgreesIffPositive(f: Frame, d: Detection, n: nat)
    requires d.Valid(f) && PowerOfTwo(n) && 1 < n <= f.size && d.Threshold(n) > 0.0
    ensures d.detectionZ > 0.0 <==> forall g :: SameGeometry(f, g) ==> Agree(g, d, n)
  {
    hide Agree, PowerOfTwo;
    if d.detectionZ > 0.0 {
      forall g | SameGeometry(f, g)
        ensures Agree(g, d, n)
      {
        PositiveAgree(g, d, n);
      }
    } else {
      BlankCell(f);
      ZeroPeakIsLost(f, d, n);
      assert SameGeometry(f, Blank(f));
    }
  }

  /** The stored layout misses no valid line of the array exactly when the count threshold is positive. */
  lemma SampleCompleteIffPositive(f: Frame, d: Detection, n: nat)
    requires d.Valid(f) && PowerOfTwo(n) && 1 < n <= f.size
    ensures d.Threshold(n) > 0.0 <==>
      forall block: nat, shiftIndex: nat, x ::
        block < Blocks(f, n) && shiftIndex < 2 * n - 1 && Padded(f, x) && DenseValid(f, d, n, block, shiftIndex, x)
        ==> Inside(f, n, block, x)
  {
    hide PowerOfTwo, LineAt, DenseLine, ActiveBlocks, Blocks;
    if d.Threshold(n) > 0.0 {
      forall block: nat, shiftIndex: nat, x
        | shiftIndex < 2 * n - 1 && Padded(f, x) && DenseValid(f, d, n, block, shiftIndex, x)
        ensures Inside(f, n, block, x)
      {
        if !Inside(f, n, block, x) {
          OutsideIsZero(f, d, n, block, shiftIndex, x);
        }
      }
    } else {
      BlocksCover(f, n);
      assert Padded(f, 0) && !Inside(f, n, 0, 0);
      OutsideIsZero(f, d, n, 0, 0, 0);
      assert DenseValid(f, d, n, 0, 0, 0);
    }
  }

  lemma DenseSampleEnds(f: Frame, d: Detection, n: nat, b: nat)
    requires d.Valid(f) && PowerOfTwo(n) && n <= f.size
    ensures DenseSample(f, d, n, 0, 0, 0) == []
    ensures DenseSample(f, d, n, b + 1, 0, 0) == DenseSample(f, d, n, b, 2 * n - 1, 0)
    ensures forall s: nat :: s < 2 * n - 1 ==>
      DenseSample(f, d, n, b, s + 1, 0) == DenseSample(f, d, n, b, s, Columns(f))
  {
    forall s: nat | s < 2 * n - 1
      ensures DenseSample(f, d, n, b, s + 1, 0) == DenseSample(f, d, n, b, s, Columns(f))
    {
      assert DenseSample(f, d, n, b, s + 1, 0) == DenseRowEnd(f, d, n, b, s);
    }
  }

  lemma DenseSampleStep(f: Frame, d: Detection, n: nat, b: nat, s: nat, x: nat)
    requires d.Valid(f) && PowerOfTwo(n) && n <= f.size && s < 2 * n - 1 && x < Columns(f)
    ensures DenseSample(f, d, n, b, s, x + 1) == DenseSample(f, d, n, b, s, x)
        + if DenseValid(f, d, n, b, s, x) then [DenseRaw(f, d, n, b, s, x)] else []
  {
    hide DenseValid, DenseRaw;
  }
}
