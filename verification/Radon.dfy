/**
 The dyadic fast Radon transform of native/src/PortableKernels.cpp on its restricted layout, against
 the dense recursion and against sums over digital lines.  Float32 sums are modelled as reals.
 */
module Radon {
  import opened Arithmetic

  /**
   One frame: rows of samples and of 0/1 line weights, in a canvas of `size` rows padded by `size`
   columns on both sides.  The source's row-major buffers are seen as rows here and in RadonLevel.
   */
  datatype Frame = Frame(image: seq<seq<real>>, weight: seq<seq<nat>>, width: nat, height: nat, size: nat) {

    /** RadonPeakRequest::Validate. */
    ghost predicate Valid() {
      && 1 <= width <= 32768 && 1 <= height <= size && 2 <= size <= 32768 && PowerOfTwo(size)
      && |image| == |weight| == height
      && (forall y :: 0 <= y < height ==> |image[y]| == width)
      && (forall y :: 0 <= y < height ==> |weight[y]| == width)
    }
  }

  function Min(a: nat, b: nat): nat {
    if a < b then a else b
  }

  predicate PowerOfTwo(n: nat) {
    n == 1 || (n > 0 && n % 2 == 0 && PowerOfTwo(n / 2))
  }

  lemma {:induction false} PowerDivides(n: nat, m: nat)
    requires PowerOfTwo(n) && PowerOfTwo(m) && n < m
    ensures 2 * n <= m
  {
    if n > 1 {
      PowerDivides(n / 2, m / 2);
    }
  }

  /** A line's sum of samples and its count of weighted samples. */
  datatype Line = Line(sum: real, count: int)

  const Zero := Line(0.0, 0)

  function Plus(a: Line, b: Line): Line {
    Line(a.sum + b.sum, a.count + b.count)
  }

  /** The padded canvas: canvas row, padded column; zero outside the image. */
  ghost function Cell(f: Frame, row: int, x: int): Line
    requires f.Valid()
  {
    if 0 <= row < f.height && f.size <= x < f.size + f.width
    then Line(f.image[row][x - f.size], if f.weight[row][x - f.size] != 0 then 1 else 0)
    else Zero
  }

  /** C++ division by two truncates toward zero. */
  function Half(s: int): int {
    if s >= 0 then s / 2 else -((-s) / 2)
  }

  /** The reference recursion on the dense, zero-extended array: block b, column shift s, padded column x. */
  ghost function Dense(f: Frame, n: nat, b: nat, s: int, x: int): Line
    requires f.Valid() && PowerOfTwo(n) && -(n as int) < s < n
    decreases n
  {
    if n == 1 then Cell(f, b, x)
    else
      var h, t := n / 2, Half(s);
      Plus(Dense(f, h, 2 * b, t, x), Dense(f, h, 2 * b + 1, t, x + (s - t)))
  }

  /** A longer block is two halves; so is its shift. */
  lemma Halving(n: nat, h: nat, s: int)
    requires PowerOfTwo(n) && n > 1 && h == n / 2 && -(n as int) < s < n
    ensures PowerOfTwo(h) && n == 2 * h && -(h as int) < Half(s) < h
  {}

  lemma DenseOne(f: Frame, n: nat, b: nat, s: int, x: int)
    requires f.Valid() && n == 1 && s == 0
    ensures PowerOfTwo(n) && Dense(f, n, b, s, x) == Cell(f, b, x)
  {
    hide Cell;
  }

  lemma DenseHalves(f: Frame, n: nat, h: nat, b: nat, s: int, x: int)
    requires f.Valid() && PowerOfTwo(n) && n > 1 && h == n / 2 && -(n as int) < s < n
    ensures PowerOfTwo(h) && n == 2 * h && -(h as int) < Half(s) < h
    ensures Dense(f, n, b, s, x)
         == Plus(Dense(f, h, 2 * b, Half(s), x), Dense(f, h, 2 * b + 1, Half(s), x + (s - Half(s))))
  {
    Halving(n, h, s);
    hide PowerOfTwo, Half, Cell, Plus, Frame.Valid;
  }

  // ----- the dense entries are line sums -----

  /** The column offset of row r on the digital line of n rows and total shift s. */
  function Offset(n: nat, s: int, r: nat): int
    requires PowerOfTwo(n) && -(n as int) < s < n && r < n
    decreases n
  {
    if n == 1 then 0
    else
      var h, t := n / 2, Half(s);
      if r < h then Offset(h, t, r) else (s - t) + Offset(h, t, r - h)
  }

  function Sign(s: int): int {
    if s > 0 then 1 else if s < 0 then -1 else 0
  }

  /** The lower half of a line is the half line, moved by the rest of the shift. */
  lemma OffsetHalves(n: nat, h: nat, s: int, r: nat)
    requires PowerOfTwo(n) && n > 1 && h == n / 2 && -(n as int) < s < n && r < h
    ensures PowerOfTwo(h) && n == 2 * h && -(h as int) < Half(s) < h
    ensures Offset(n, s, r) == Offset(h, Half(s), r)
    ensures Offset(n, s, h + r) == s - Half(s) + Offset(h, Half(s), r)
  {
    Halving(n, h, s);
    hide PowerOfTwo, Half;
  }

  lemma OffsetOne(n: nat, s: int)
    requires n == 1 && s == 0
    ensures PowerOfTwo(n) && Offset(n, s, 0) == 0
  {}

  /** The rest of a shift is as long as the half or one longer, to the same side. */
  lemma HalfShift(s: int)
    ensures s >= 0 ==> 0 <= s - Half(s) <= (s + 1) / 2
    ensures s < 0 ==> -((1 - s) / 2) <= s - Half(s) <= 0
    ensures s - Half(s) == Half(s) || s - Half(s) == Half(s) + Sign(s)
    ensures Sign(Half(s)) == 0 || Sign(Half(s)) == Sign(s)
  {}

  /** From row r of the line to the next the column stays or moves to the side of the shift. */
  predicate StepsRight(n: nat, s: int, r: nat)
    requires PowerOfTwo(n) && -(n as int) < s < n && r + 1 < n
  {
    Offset(n, s, r + 1) == Offset(n, s, r) || Offset(n, s, r + 1) == Offset(n, s, r) + Sign(s)
  }

  /** The same in both halves, and from one to the other. */
  lemma StepHalves(n: nat, h: nat, s: int, r: nat)
    requires PowerOfTwo(n) && n > 1 && h == n / 2 && -(n as int) < s < n && r + 1 < n
    requires PowerOfTwo(h) && n == 2 * h && -(h as int) < Half(s) < h
    requires Offset(h, Half(s), 0) == 0 && Offset(h, Half(s), h - 1) == Half(s)
    requires forall q: nat :: q + 1 < h ==> StepsRight(h, Half(s), q)
    ensures StepsRight(n, s, r)
  {
    hide PowerOfTwo, Offset, Half, Sign;
    HalfShift(s);
    if r + 1 < h {
      OffsetHalves(n, h, s, r);
      OffsetHalves(n, h, s, r + 1);
      assert StepsRight(h, Half(s), r);
    } else if r + 1 == h {
      OffsetHalves(n, h, s, r);
      OffsetHalves(n, h, s, 0);
    } else {
      OffsetHalves(n, h, s, r - h);
      OffsetHalves(n, h, s, r - h + 1);
      assert StepsRight(h, Half(s), r - h);
    }
  }

  /** The line starts at offset 0, ends at offset s and moves by 0 or sign(s) from row to row. */
  lemma {:induction false} LineShape(n: nat, s: int)
    requires PowerOfTwo(n) && -(n as int) < s < n
    ensures Offset(n, s, 0) == 0 && Offset(n, s, n - 1) == s
    ensures forall r: nat :: r + 1 < n ==> StepsRight(n, s, r)
    decreases n
  {
    hide *;
    if n > 1 {
      var h := n / 2;
      Halving(n, h, s);
      LineShape(h, Half(s));
      OffsetHalves(n, h, s, 0);
      OffsetHalves(n, h, s, h - 1);
      forall r: nat | r + 1 < n
        ensures StepsRight(n, s, r)
      {
        StepHalves(n, h, s, r);
      }
    } else {
      OffsetOne(n, s);
    }
  }

  /** The sum over the first k rows of a line that starts in canvas row `row` at padded column x. */
  ghost function LineSum(f: Frame, n: nat, s: int, row: nat, x: int, k: nat): Line
    requires f.Valid() && PowerOfTwo(n) && -(n as int) < s < n && k <= n
    decreases k
  {
    if k == 0 then Zero
    else Plus(LineSum(f, n, s, row, x, k - 1), Cell(f, row + k - 1, x + Offset(n, s, k - 1)))
  }

  lemma LineSumNone(f: Frame, n: nat, s: int, row: nat, x: int)
    requires f.Valid() && PowerOfTwo(n) && -(n as int) < s < n
    ensures LineSum(f, n, s, row, x, 0) == Zero
  {
    hide PowerOfTwo, Frame.Valid;
  }

  lemma LineSumStep(f: Frame, n: nat, s: int, row: nat, x: int, k: nat)
    requires f.Valid() && PowerOfTwo(n) && -(n as int) < s < n && k < n
    ensures LineSum(f, n, s, row, x, k + 1)
         == Plus(LineSum(f, n, s, row, x, k), Cell(f, row + k, x + Offset(n, s, k)))
  {
    hide PowerOfTwo, Offset, Cell, Plus, Frame.Valid;
  }

  lemma {:induction false} TopHalf(f: Frame, n: nat, h: nat, s: int, row: nat, x: int, k: nat)
    requires f.Valid() && PowerOfTwo(n) && n > 1 && h == n / 2 && -(n as int) < s < n && k <= h
    ensures PowerOfTwo(h) && n == 2 * h && -(h as int) < Half(s) < h
    ensures LineSum(f, n, s, row, x, k) == LineSum(f, h, Half(s), row, x, k)
  {
    hide *;
    Halving(n, h, s);
    if k == 0 {
      LineSumNone(f, n, s, row, x);
      LineSumNone(f, h, Half(s), row, x);
    } else {
      TopHalf(f, n, h, s, row, x, k - 1);
      LineSumStep(f, n, s, row, x, k - 1);
      LineSumStep(f, h, Half(s), row, x, k - 1);
      OffsetHalves(n, h, s, k - 1);
    }
  }

  lemma PlusZero(a: Line)
    ensures Plus(a, Zero) == a
  {}

  lemma PlusAssociative(a: Line, b: Line, c: Line)
    ensures Plus(Plus(a, b), c) == Plus(a, Plus(b, c))
  {}

  lemma {:induction false} BottomHalf(f: Frame, n: nat, h: nat, s: int, row: nat, x: int, k: nat)
    requires f.Valid() && PowerOfTwo(n) && n > 1 && h == n / 2 && -(n as int) < s < n && k <= h
    ensures PowerOfTwo(h) && n == 2 * h && -(h as int) < Half(s) < h
    ensures LineSum(f, n, s, row, x, h + k)
         == Plus(LineSum(f, n, s, row, x, h), LineSum(f, h, Half(s), row + h, x + (s - Half(s)), k))
  {
    hide *;
    Halving(n, h, s);
    var t := Half(s);
    var y := x + (s - t);
    if k == 0 {
      LineSumNone(f, h, t, row + h, y);
      PlusZero(LineSum(f, n, s, row, x, h));
    } else {
      BottomHalf(f, n, h, s, row, x, k - 1);
      LineSumStep(f, n, s, row, x, h + (k - 1));
      LineSumStep(f, h, t, row + h, y, k - 1);
      OffsetHalves(n, h, s, k - 1);
      assert x + Offset(n, s, h + (k - 1)) == y + Offset(h, t, k - 1) && row + (h + (k - 1)) == row + h + (k - 1);
      PlusAssociative(LineSum(f, n, s, row, x, h), LineSum(f, h, t, row + h, y, k - 1),
                      Cell(f, row + h + (k - 1), y + Offset(h, t, k - 1)));
    }
  }

  /** The first canvas row of block b of n rows, down the dyadic halving. */
  function StartRow(n: nat, b: nat): nat
    requires PowerOfTwo(n)
  {
    if n == 1 then b else StartRow(n / 2, 2 * b)
  }

  lemma {:induction false} StartRowIs(n: nat, b: nat)
    requires PowerOfTwo(n)
    ensures StartRow(n, b) == b * n
  {
    if n > 1 {
      StartRowIs(n / 2, 2 * b);
      BlockStart(b, n, n / 2);
    }
  }

  lemma BlockStart(b: nat, n: nat, h: nat)
    requires n == 2 * h
    ensures 2 * b * h == b * n && (2 * b + 1) * h == b * n + h
  {}

  lemma SecondHalf(n: nat, b: nat)
    requires PowerOfTwo(n) && n > 1
    ensures StartRow(n / 2, 2 * b + 1) == StartRow(n, b) + n / 2
  {
    StartRowIs(n / 2, 2 * b + 1);
    StartRowIs(n, b);
    BlockStart(b, n, n / 2);
  }

  lemma StartRowHalves(n: nat, b: nat)
    requires PowerOfTwo(n) && n > 1
    ensures PowerOfTwo(n / 2) && StartRow(n, b) == StartRow(n / 2, 2 * b)
  {}

  /** The line of a single row is its cell. */
  lemma OneRow(f: Frame, n: nat, b: nat, s: int, x: int)
    requires f.Valid() && n == 1 && s == 0
    ensures PowerOfTwo(n) && StartRow(n, b) == b && LineSum(f, n, s, b, x, n) == Cell(f, b, x)
  {
    LineSumNone(f, n, s, b, x);
    LineSumStep(f, n, s, b, x, 0);
    hide Cell;
  }

  lemma {:induction false} DenseFromStart(f: Frame, n: nat, b: nat, s: int, x: int)
    requires f.Valid() && PowerOfTwo(n) && -(n as int) < s < n
    ensures Dense(f, n, b, s, x) == LineSum(f, n, s, StartRow(n, b), x, n)
    decreases n
  {
    hide *;
    var row := StartRow(n, b);
    if n <= 1 {
      DenseOne(f, n, b, s, x);
      OneRow(f, n, b, s, x);
    } else {
      var h, t := n / 2, Half(s);
      DenseHalves(f, n, h, b, s, x);
      SecondHalf(n, b);
      StartRowHalves(n, b);
      DenseFromStart(f, h, 2 * b, t, x);
      DenseFromStart(f, h, 2 * b + 1, t, x + (s - t));
      TopHalf(f, n, h, s, row, x, h);
      BottomHalf(f, n, h, s, row, x, h);
    }
  }

  /** Every dense entry is the sum of the image along one digital line of its block. */
  lemma DenseIsLineSum(f: Frame, n: nat, b: nat, s: int, x: int)
    requires f.Valid() && PowerOfTwo(n) && -(n as int) < s < n
    ensures Dense(f, n, b, s, x) == LineSum(f, n, s, b * n, x, n)
  {
    DenseFromStart(f, n, b, s, x);
    StartRowIs(n, b);
  }

  // ----- which entries can be nonzero -----

  /** Blocks of n rows that reach into the image. */
  function ActiveBlocks(f: Frame, n: nat): nat
    requires n > 0
  {
    (f.height + n - 1) / n
  }

  /** A line whose block lies below the image, or that starts too far to either side, sums to exactly zero. */
  lemma {:induction false} DenseVanishes(f: Frame, n: nat, b: nat, s: int, x: int)
    requires f.Valid() && PowerOfTwo(n) && -(n as int) < s < n
    requires b * n >= f.height || x < f.size - (n - 1) || x >= f.size + f.width + (n - 1)
    ensures Dense(f, n, b, s, x) == Zero
    decreases n
  {
    hide *;
    if n <= 1 {
      DenseOne(f, n, b, s, x);
      CellVanishes(f, b, x, n);
    } else {
      var h := n / 2;
      DenseHalves(f, n, h, b, s, x);
      BlockStart(b, n, h);
      HalfShift(s);
      DenseVanishes(f, h, 2 * b, Half(s), x);
      DenseVanishes(f, h, 2 * b + 1, Half(s), x + (s - Half(s)));
      PlusZero(Zero);
    }
  }

  lemma CellVanishes(f: Frame, row: nat, x: int, n: nat)
    requires f.Valid() && n == 1 && (row * n >= f.height || x < f.size || x >= f.size + f.width)
    ensures Cell(f, row, x) == Zero
  {}

  /** A line of n rows counts at most n samples, so 16 bits hold every count of a canvas of up to 32768 rows. */
  lemma {:induction false} CountBound(f: Frame, n: nat, b: nat, s: int, x: int)
    requires f.Valid() && PowerOfTwo(n) && -(n as int) < s < n
    ensures 0 <= Dense(f, n, b, s, x).count <= n
    decreases n
  {
    hide *;
    if n <= 1 {
      DenseOne(f, n, b, s, x);
      CellCount(f, b, x);
    } else {
      var h, t := n / 2, Half(s);
      DenseHalves(f, n, h, b, s, x);
      CountBound(f, h, 2 * b, t, x);
      CountBound(f, h, 2 * b + 1, t, x + (s - t));
      PlusCount(Dense(f, h, 2 * b, t, x), Dense(f, h, 2 * b + 1, t, x + (s - t)));
    }
  }

  lemma CellCount(f: Frame, row: int, x: int)
    requires f.Valid()
    ensures 0 <= Cell(f, row, x).count <= 1
  {}

  lemma PlusCount(a: Line, b: Line)
    ensures Plus(a, b).sum == a.sum + b.sum && Plus(a, b).count == a.count + b.count
  {}

  // ----- the restricted layout -----

  /** The dense value that stored block, shift index and column stand for. */
  ghost function Entry(f: Frame, n: nat, block: nat, shiftIndex: nat, column: nat): Line
    requires f.Valid() && PowerOfTwo(n) && shiftIndex < 2 * n - 1
  {
    Dense(f, n, block, shiftIndex - (n - 1), f.size - (n - 1) + column)
  }

  /**
   One stored level: the blocks that reach into the image, every shift of a block, and padded columns
   [lo, hi).  The source's flat index (block * shifts + shift) * (hi - lo) + column is seen as three indices.
   */
  class RadonLevel {
    var n: nat
    var activeBlocks: nat
    var shifts: nat
    var lo: nat
    var hi: nat
    var sums: array3<real>
    var counts: array3<nat>

    constructor ()
      ensures fresh(sums) && fresh(counts)
    {
      n, activeBlocks, shifts, lo, hi := 1, 0, 1, 0, 0;
      sums := new real[0, 0, 0];
      counts := new nat[0, 0, 0];
    }

    /** The fields describe block length n of the frame. */
    ghost predicate Laid(f: Frame)
      reads this
    {
      && f.Valid() && PowerOfTwo(n) && n <= f.size
      && activeBlocks == ActiveBlocks(f, n) && shifts == 2 * n - 1
      && lo == f.size - (n - 1) && hi == f.size + f.width + (n - 1)
      && sums.Length0 == counts.Length0 == activeBlocks
      && sums.Length1 == counts.Length1 == shifts
      && sums.Length2 == counts.Length2 == hi - lo
    }

    /** The cell holds the dense value it stands for. */
    ghost predicate Right(f: Frame, block: nat, shiftIndex: nat, column: nat)
      requires Laid(f) && block < activeBlocks && shiftIndex < shifts && column < hi - lo
      reads this, sums, counts
    {
      Line(sums[block, shiftIndex, column], counts[block, shiftIndex, column]) == Entry(f, n, block, shiftIndex, column)
    }

    /** Every cell of the first `blocks` blocks, and of the next block's first `rows` shifts, is right. */
    ghost predicate HoldsUpTo(f: Frame, blocks: nat, rows: nat)
      reads this, sums, counts
    {
      && Laid(f)
      && forall b: nat, s: nat, c: nat ::
           b < activeBlocks && s < shifts && c < hi - lo && (b < blocks || (b == blocks && s < rows)) ==>
             Right(f, b, s, c)
    }

    ghost predicate Holds(f: Frame)
      reads this, sums, counts
    {
      HoldsUpTo(f, activeBlocks, 0)
    }
  }

  /** Outside the stored blocks and columns the dense level is zero. */
  lemma OutsideVanishes(f: Frame, n: nat, block: nat, t: int, x: int)
    requires f.Valid() && PowerOfTwo(n) && -(n as int) < t < n
    requires block >= ActiveBlocks(f, n) || x < f.size - (n - 1) || x >= f.size + f.width + (n - 1)
    ensures Dense(f, n, block, t, x) == Zero
  {
    CeilDiv(f.height, n, block);
    DenseVanishes(f, n, block, t, x);
  }

  /** One read of a stored level, with zero outside the layout, gives the dense value. */
  method Read(ghost f: Frame, level: RadonLevel, block: nat, row: nat, x: int) returns (sum: real, count: nat)
    requires level.Holds(f) && row < level.shifts
    ensures Line(sum, count) == Dense(f, level.n, block, row - (level.n - 1), x)
  {
    if block < level.activeBlocks && level.lo <= x < level.hi {
      assert level.Right(f, block, row, x - level.lo);
      sum, count := level.sums[block, row, x - level.lo], level.counts[block, row, x - level.lo];
    } else {
      OutsideVanishes(f, level.n, block, row - (level.n - 1), x);
      sum, count := 0.0, 0;
    }
  }

  /** The recursion seen from the lower level; a count fits 16 bits. */
  lemma DenseStep(f: Frame, n: nat, h: nat, block: nat, shift: int, x: int, top: Line, bottom: Line)
    requires f.Valid() && PowerOfTwo(h) && PowerOfTwo(n) && n == 2 * h && n <= f.size && -(n as int) < shift < n
    requires -(h as int) < Half(shift) < h
    requires top == Dense(f, h, 2 * block, Half(shift), x)
    requires bottom == Dense(f, h, 2 * block + 1, Half(shift), x + (shift - Half(shift)))
    ensures Line(top.sum + bottom.sum, (top.count + bottom.count) % 0x1_0000) == Dense(f, n, block, shift, x)
  {
    SizeBound(f);
    hide *;
    DenseHalves(f, n, h, block, shift, x);
    CountBound(f, n, block, shift, x);
    PlusCount(top, bottom);
    SmallCount(top.count + bottom.count);
    LineIs(Dense(f, n, block, shift, x));
  }

  lemma Doubling(h: nat)
    requires PowerOfTwo(h)
    ensures PowerOfTwo(2 * h) && h > 0
  {}

  lemma SizeBound(f: Frame)
    requires f.Valid()
    ensures f.size <= 32768
  {}

  lemma SmallCount(c: int)
    requires 0 <= c < 0x1_0000
    ensures c % 0x1_0000 == c
  {}

  lemma LineIs(a: Line)
    ensures a == Line(a.sum, a.count)
  {}

  /** One entry of the next level from two reads of the previous one. */
  method Combine(ghost f: Frame, previous: RadonLevel, block: nat, shift: int, x: int) returns (sum: real, count: nat)
    requires previous.Holds(f) && 2 * previous.n <= f.size && -2 * previous.n < shift < 2 * previous.n
    ensures Line(sum, count) == Dense(f, 2 * previous.n, block, shift, x)
  {
    hide Dense, Half, PowerOfTwo, ActiveBlocks;
    var half := previous.n;
    Doubling(half);
    Halving(2 * half, half, shift);
    var trunc := Half(shift);
    var delta := shift - trunc;
    var previousRow := trunc + half - 1;
    var topValue, topN := Read(f, previous, 2 * block, previousRow, x);
    var bottomValue, bottomN := Read(f, previous, 2 * block + 1, previousRow, x + delta);
    DenseStep(f, 2 * half, half, block, shift, x, Line(topValue, topN), Line(bottomValue, bottomN));
    sum, count := topValue + bottomValue, (topN + bottomN) % 0x1_0000;
  }

  /** One row of the next level. */
  method FillRow(ghost f: Frame, previous: RadonLevel, level: RadonLevel, block: nat, shiftIndex: nat)
    requires previous.Holds(f) && level.HoldsUpTo(f, block, shiftIndex)
    requires block < level.activeBlocks && shiftIndex < level.shifts
    requires level.n == 2 * previous.n && level.sums != previous.sums && level.counts != previous.counts
    modifies level.sums, level.counts
    ensures level.HoldsUpTo(f, block, shiftIndex + 1)
  {
    hide Dense, PowerOfTwo, ActiveBlocks;
    for i := 0 to level.hi - level.lo
      invariant previous.Holds(f) && level.HoldsUpTo(f, block, shiftIndex)
      invariant forall c: nat :: c < i ==> level.Right(f, block, shiftIndex, c)
    {
      var sum, count := Combine(f, previous, block, shiftIndex - (level.n - 1), level.lo + i);
      label Before:
      level.sums[block, shiftIndex, i] := sum;
      level.counts[block, shiftIndex, i] := count;
      assert level.Right(f, block, shiftIndex, i);
      forall b: nat, s: nat, c: nat | b < level.activeBlocks && s < level.shifts && c < level.hi - level.lo
          && (b != block || s != shiftIndex || c != i) && old@Before(level.Right(f, b, s, c))
        ensures level.Right(f, b, s, c)
      {
      }
    }
  }

  /** The fields and fresh buffers of block length n. */
  method LayOut(ghost f: Frame, level: RadonLevel, n: nat, height: nat, width: nat, size: nat)
    requires f.Valid() && 1 < n <= f.size && PowerOfTwo(n)
    requires height == f.height && width == f.width && size == f.size
    modifies level
    ensures level.Laid(f) && level.n == n
    ensures fresh(level.sums) && fresh(level.counts)
  {
    level.n := n;
    level.activeBlocks := (height + n - 1) / n;
    level.shifts := 2 * n - 1;
    level.lo := size - (n - 1);
    level.hi := Min(size + width + n - 1, width + 2 * size);
    level.sums := new real[level.activeBlocks, level.shifts, level.hi - level.lo];
    level.counts := new nat[level.activeBlocks, level.shifts, level.hi - level.lo];
  }

  /**
   The next level from the previous one, on fresh buffers.  The rows are independent, so the source
   fills them in parallel; here they are filled in order.
   */
  method NextRadonLevel(ghost f: Frame, previous: RadonLevel, level: RadonLevel, height: nat, width: nat, size: nat)
    requires previous.Holds(f) && 2 * previous.n <= f.size && previous != level
    requires height == f.height && width == f.width && size == f.size
    modifies level
    ensures level.Holds(f) && level.n == 2 * previous.n
    ensures fresh(level.sums) && fresh(level.counts)
  {
    LayOut(f, level, previous.n * 2, height, width, size);
    for block := 0 to level.activeBlocks
      invariant previous.Holds(f) && level.HoldsUpTo(f, block, 0) && level.n == 2 * previous.n
      invariant fresh(level.sums) && fresh(level.counts)
    {
      for shiftIndex := 0 to level.shifts
        invariant previous.Holds(f) && level.HoldsUpTo(f, block, shiftIndex) && level.n == 2 * previous.n
        invariant fresh(level.sums) && fresh(level.counts)
      {
        FillRow(f, previous, level, block, shiftIndex);
      }
    }
  }

  lemma FirstSizes(f: Frame)
    requires f.Valid()
    ensures PowerOfTwo(1) && ActiveBlocks(f, 1) == f.height
  {}

  /** Entries of single rows are the cells. */
  lemma FirstEntry(f: Frame, block: nat, shiftIndex: nat, column: nat)
    requires f.Valid() && block < f.height && shiftIndex == 0 && column < f.width
    ensures PowerOfTwo(1) && Entry(f, 1, block, shiftIndex, column)
      == Line(f.image[block][column], if f.weight[block][column] != 0 then 1 else 0)
  {
    DenseOne(f, 1, block, 0, f.size + column);
    hide Dense;
  }

  /** Level 1 is the image itself. */
  method FirstLevel(f: Frame, level: RadonLevel)
    requires f.Valid()
    modifies level
    ensures level.Holds(f) && level.n == 1
    ensures fresh(level.sums) && fresh(level.counts)
  {
    hide Dense, Cell, PowerOfTwo, Entry;
    level.n, level.activeBlocks, level.shifts, level.lo, level.hi := 1, f.height, 1, f.size, f.size + f.width;
    level.sums := new real[f.height, 1, f.width](
      (y, s, x) requires 0 <= y < f.height && 0 <= x < f.width && f.Valid() => f.image[y][x]);
    level.counts := new nat[f.height, 1, f.width](
      (y, s, x) requires 0 <= y < f.height && 0 <= x < f.width && f.Valid() => if f.weight[y][x] != 0 then 1 else 0);
    FirstSizes(f);
    forall b: nat, s: nat, c: nat | b < f.height && s < 1 && c < f.width
      ensures Line(level.sums[b, s, c], level.counts[b, s, c]) == Entry(f, 1, b, s, c)
    {
      FirstEntry(f, b, s, c);
    }
  }
}
