/**
 What the standardised values of the line peak kernel (native/src/PortableKernels.cpp) are worth when the square root
 is one: a line's value is its sum over the root of its count, and so at most the root of its sum of squares.
 */
module RadonScale {
  import opened Radon
  import opened RadonPeaks
  import opened Reals

  /** A line is valid when its count reaches both minima. */
  lemma ValidIff(f: Frame, d: Detection, n: nat, block: nat, shiftIndex: nat, x: int)
    requires f.Valid() && PowerOfTwo(n) && shiftIndex < 2 * n - 1
    ensures var count := LineAt(f, n, block, shiftIndex, x).count as real;
      IsValidLine(f, d, n, block, shiftIndex, x) <==> count >= d.minimumCount && count >= d.minimumCoverage * n as real
  {
    hide LineAt, PowerOfTwo;
  }

  lemma RootSquared(root: real -> real, x: real)
    requires IsRoot(root) && x >= 1.0
    ensures root(x) > 0.0 && root(x) * root(x) == x
  {
    var r := root(x);
    assert r >= 0.0 && r * r == x;
    assert r == 0.0 ==> r * r == 0.0;
  }

  lemma Standardised(sum: real, count: real, r: real, v: real)
    requires r > 0.0 && r * r == count && v == sum / r
    ensures v * v * count == sum * sum
    ensures (v > 0.0 <==> sum > 0.0) && (v < 0.0 <==> sum < 0.0)
  {
    TimesQuotient(sum, r, v);
    Fourfold(v, r, sum, count);
    Times(v, r);
    Times(-v, r);
    assert -v * r == -sum;
    if v == 0.0 {
      assert v * r == 0.0;
    }
  }

  lemma Fourfold(v: real, r: real, sum: real, count: real)
    requires v * r == sum && r * r == count
    ensures v * v * count == sum * sum
  {
    assert v * v * (r * r) == v * r * (v * r);
  }

  lemma RawZIs(d: Detection, n: nat, line: Line, count: real)
    requires d.Sound() && count == line.count as real && count >= 1.0 && count >= d.Threshold(n)
    ensures d.root(count) > 0.0 && d.RawZ(n, line) == line.sum / d.root(count)
  {}

  /** The value of a valid line with samples, squared and times the count, is the sum squared; the signs agree. */
  lemma RawSquared(f: Frame, d: Detection, n: nat, block: nat, shiftIndex: nat, x: int)
    requires d.Valid(f) && IsRoot(d.root) && PowerOfTwo(n) && shiftIndex < 2 * n - 1
    requires IsValidLine(f, d, n, block, shiftIndex, x) && LineAt(f, n, block, shiftIndex, x).count > 0
    ensures var v, line := RawAt(f, d, n, block, shiftIndex, x), LineAt(f, n, block, shiftIndex, x);
      && v * v * line.count as real == line.sum * line.sum
      && (v > 0.0 <==> line.sum > 0.0) && (v < 0.0 <==> line.sum < 0.0)
  {
    hide LineAt, PowerOfTwo, IsRoot, Detection.Threshold, Frame.Valid, Detection.RawZ;
    var line := LineAt(f, n, block, shiftIndex, x);
    RawZIs(d, n, line, line.count as real);
    RootSquared(d.root, line.count as real);
    Standardised(line.sum, line.count as real, d.root(line.count as real), RawAt(f, d, n, block, shiftIndex, x));
  }

  /** A line that is not valid, or has no samples to weigh, has no value beyond its sum. */
  lemma RawOtherwise(f: Frame, d: Detection, n: nat, block: nat, shiftIndex: nat, x: int)
    requires d.Valid(f) && IsRoot(d.root) && PowerOfTwo(n) && shiftIndex < 2 * n - 1
    ensures !IsValidLine(f, d, n, block, shiftIndex, x) ==> RawAt(f, d, n, block, shiftIndex, x) == 0.0
    ensures IsValidLine(f, d, n, block, shiftIndex, x) && LineAt(f, n, block, shiftIndex, x).count == 0 ==>
      RawAt(f, d, n, block, shiftIndex, x) == LineAt(f, n, block, shiftIndex, x).sum
  {
    var line := LineAt(f, n, block, shiftIndex, x);
    hide LineAt, PowerOfTwo, IsRoot, Detection.Threshold, Frame.Valid;
    RootOfOne(d.root);
  }

  lemma RootOfOne(root: real -> real)
    requires IsRoot(root)
    ensures root(1.0) == 1.0
  {
    var r := root(1.0);
    assert r >= 0.0 && r * r == 1.0;
    if r < 1.0 {
      SquareOrder(r, 1.0);
    } else if r > 1.0 {
      SquareOrder(1.0, r);
    }
  }

  // ----- against the squares of the samples -----

  /** Samples that are not weighted are zero. */
  ghost predicate Masked(f: Frame)
    requires f.Valid()
  {
    forall y, x :: 0 <= y < f.height && 0 <= x < f.width && f.weight[y][x] == 0 ==> f.image[y][x] == 0.0
  }

  /** The squares of the samples along the first k rows of a line. */
  ghost function SquareSum(f: Frame, n: nat, s: int, row: nat, x: int, k: nat): real
    requires f.Valid() && PowerOfTwo(n) && -(n as int) < s < n && k <= n
    decreases k
  {
    if k == 0 then 0.0
    else
      SquareSum(f, n, s, row, x, k - 1) + Squared(Cell(f, row + k - 1, x + Offset(n, s, k - 1)).sum)
  }

  /** The squares of the samples along a whole line of a level. */
  ghost function LineSquares(f: Frame, n: nat, block: nat, shiftIndex: nat, x: int): real
    requires f.Valid() && PowerOfTwo(n) && shiftIndex < 2 * n - 1
  {
    SquareSum(f, n, shiftIndex - (n - 1), block * n, x, n)
  }

  lemma LineSquaresIs(f: Frame, n: nat, block: nat, shiftIndex: nat, x: int)
    requires f.Valid() && PowerOfTwo(n) && shiftIndex < 2 * n - 1
    ensures LineSquares(f, n, block, shiftIndex, x) == SquareSum(f, n, shiftIndex - (n - 1), block * n, x, n)
  {
    hide SquareSum, PowerOfTwo;
  }

  function Squared(v: real): (q: real)
    ensures q >= 0.0
  {
    v * v
  }

  lemma MaskedCell(f: Frame, row: int, x: int)
    requires f.Valid() && Masked(f)
    ensures Cell(f, row, x).count == 1 || Cell(f, row, x) == Zero
  {}

  /** One sample more: the square of a sum is at most the count times the sum of the squares. */
  lemma CauchyStep(sum: real, count: real, squares: real, v: real)
    requires count >= 0.0 && squares >= 0.0 && sum * sum <= count * squares
    ensures (sum + v) * (sum + v) <= (count + 1.0) * (squares + v * v)
  {
    var w, p := v * v, sum * v;
    TwiceProduct(sum, v, count, squares, p, w);
    assert (sum + v) * (sum + v) == sum * sum + 2.0 * p + w;
    assert (count + 1.0) * (squares + w) == count * squares + count * w + squares + w;
  }

  /** Twice the product is at most the sum of squares and count times the square. */
  lemma TwiceProduct(sum: real, v: real, count: real, squares: real, p: real, w: real)
    requires count >= 0.0 && squares >= 0.0 && sum * sum <= count * squares && p == sum * v && w == v * v
    ensures 2.0 * p <= squares + count * w
  {
    var a, b := squares, count * w;
    Times(count, w);
    SquareOf(v);
    SquareOf(a - b);
    assert p * p == sum * sum * w;
    ProductAtMost(sum * sum, count * squares, w);
    assert count * squares * w == a * b;
    assert 4.0 * (p * p) <= 4.0 * (a * b);
    assert (a - b) * (a - b) == (a + b) * (a + b) - 4.0 * (a * b);
    RootOrder(2.0 * p, a + b);
  }

  lemma SquareOf(v: real)
    ensures v * v >= 0.0
  {}

  lemma ProductAtMost(a: real, b: real, w: real)
    requires a <= b && w >= 0.0
    ensures a * w <= b * w
  {
    Times(b - a, w);
  }

  lemma RootOrder(p: real, q: real)
    requires q >= 0.0 && p * p <= q * q
    ensures p <= q
  {
    if p > q {
      SquareOrder(q, p);
    }
  }

  lemma {:induction false} LineCauchy(f: Frame, n: nat, s: int, row: nat, x: int, k: nat)
    requires f.Valid() && Masked(f) && PowerOfTwo(n) && -(n as int) < s < n && k <= n
    ensures Bounded(LineSum(f, n, s, row, x, k), SquareSum(f, n, s, row, x, k))
  {
    hide *;
    if k > 0 {
      LineCauchy(f, n, s, row, x, k - 1);
      var c := Cell(f, row + k - 1, x + Offset(n, s, k - 1));
      MaskedCell(f, row + k - 1, x + Offset(n, s, k - 1));
      LineSumStep(f, n, s, row, x, k - 1);
      SquareStep(f, n, s, row, x, k - 1);
      BoundedStep(LineSum(f, n, s, row, x, k - 1), SquareSum(f, n, s, row, x, k - 1), c);
    } else {
      LineSumNone(f, n, s, row, x);
      SquareNone(f, n, s, row, x);
    }
  }

  /** The sum squared is at most the count times the sum of squares. */
  predicate Bounded(line: Line, squares: real) {
    squares >= 0.0 && line.count >= 0 && line.sum * line.sum <= line.count as real * squares
  }

  lemma BoundedStep(line: Line, squares: real, c: Line)
    requires Bounded(line, squares) && (c.count == 1 || c == Zero)
    ensures Bounded(Plus(line, c), squares + Squared(c.sum))
  {
    CauchyStep(line.sum, line.count as real, squares, c.sum);
  }

  lemma SquareStep(f: Frame, n: nat, s: int, row: nat, x: int, k: nat)
    requires f.Valid() && PowerOfTwo(n) && -(n as int) < s < n && k < n
    ensures SquareSum(f, n, s, row, x, k + 1)
         == SquareSum(f, n, s, row, x, k) + Squared(Cell(f, row + k, x + Offset(n, s, k)).sum)
  {
    hide PowerOfTwo, Offset, Cell, Frame.Valid, Squared;
  }

  lemma SquareNone(f: Frame, n: nat, s: int, row: nat, x: int)
    requires f.Valid() && PowerOfTwo(n) && -(n as int) < s < n
    ensures SquareSum(f, n, s, row, x, 0) == 0.0 && Bounded(Zero, 0.0)
  {
    hide PowerOfTwo, Frame.Valid;
  }

  lemma ValidFrame(f: Frame, d: Detection)
    requires d.Valid(f)
    ensures f.Valid() && d.Sound()
  {
    hide Frame.Valid;
  }

  lemma LineAtIs(f: Frame, n: nat, block: nat, shiftIndex: nat, x: int)
    requires f.Valid() && PowerOfTwo(n) && shiftIndex < 2 * n - 1
    ensures LineAt(f, n, block, shiftIndex, x) == Dense(f, n, block, shiftIndex - (n - 1), x)
  {
    hide Dense, PowerOfTwo;
  }

  lemma ValueBound(v: real, line: Line, squares: real, valid: bool)
    requires Bounded(line, squares)
    requires valid && line.count > 0 ==> v * v * line.count as real == line.sum * line.sum
    requires valid && line.count == 0 ==> v == line.sum
    requires !valid ==> v == 0.0
    ensures Squared(v) <= squares
  {
    var w, c := v * v, line.count as real;
    assert (w - squares) * c == w * c - c * squares && 0.0 * squares == 0.0;
    if valid && line.count > 0 && w > squares {
      Times(w - squares, c);
    }
  }

  /** Of a masked frame no value exceeds, in square, the sum of the squared samples along its own digital line. */
  lemma RawAtMost(f: Frame, d: Detection, n: nat, block: nat, shiftIndex: nat, x: int)
    requires d.Valid(f) && IsRoot(d.root) && Masked(f) && PowerOfTwo(n) && shiftIndex < 2 * n - 1
    ensures Squared(RawAt(f, d, n, block, shiftIndex, x)) <= LineSquares(f, n, block, shiftIndex, x)
  {
    hide *;
    ValidFrame(f, d);
    var s := shiftIndex - (n - 1);
    DenseIsLineSum(f, n, block, s, x);
    LineCauchy(f, n, s, block * n, x, n);
    var line := LineAt(f, n, block, shiftIndex, x);
    LineAtIs(f, n, block, shiftIndex, x);
    var v, squares := RawAt(f, d, n, block, shiftIndex, x), LineSquares(f, n, block, shiftIndex, x);
    LineSquaresIs(f, n, block, shiftIndex, x);
    RawOtherwise(f, d, n, block, shiftIndex, x);
    if IsValidLine(f, d, n, block, shiftIndex, x) && line.count > 0 {
      RawSquared(f, d, n, block, shiftIndex, x);
    }
    ValueBound(v, line, squares, IsValidLine(f, d, n, block, shiftIndex, x));
  }

  lemma ListedIs(f: Frame, d: Detection, n: nat, p: Peak)
    requires d.Valid(f) && PowerOfTwo(n)
    ensures p in LevelPeaks(f, d, n) <==> p in PeaksBefore(f, d, n, ActiveBlocks(f, n), 0, 0)
  {
    hide PeaksBefore, PowerOfTwo;
  }

  /** Undoing the division by the level's divisor gives the line's value. */
  lemma ReportedValue(f: Frame, d: Detection, n: nat, p: Peak)
    requires d.Valid(f) && PowerOfTwo(n) && Reports(f, d, n, p)
    ensures p.shiftIndex < 2 * n - 1
    ensures p.z * Divisor(d, LevelSample(f, d, n)) == RawAt(f, d, n, p.block, p.shiftIndex, p.column)
  {
    hide PowerOfTwo, RawAt, Divisor, LevelSample, StoredPeak;
    TimesQuotient(RawAt(f, d, n, p.block, p.shiftIndex, p.column), Divisor(d, LevelSample(f, d, n)), p.z);
  }

  /** Every listed peak of a masked frame: its value, times the divisor of its level, is bounded alike. */
  lemma PeakValue(f: Frame, d: Detection, n: nat, p: Peak)
    requires d.Valid(f) && IsRoot(d.root) && Masked(f) && PowerOfTwo(n) && p in LevelPeaks(f, d, n)
    ensures p.shiftIndex < 2 * n - 1
    ensures Squared(p.z * Divisor(d, LevelSample(f, d, n))) <= LineSquares(f, n, p.block, p.shiftIndex, p.column)
  {
    assert n > 0 && Length(f, n) >= 0;
    hide *;
    ValidFrame(f, d);
    PeakMembers(f, d, n, ActiveBlocks(f, n), 0, 0, p);
    ListedIs(f, d, n, p);
    ReportedValue(f, d, n, p);
    RawAtMost(f, d, n, p.block, p.shiftIndex, p.column);
  }
}
