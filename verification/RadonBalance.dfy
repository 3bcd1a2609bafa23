/**
 When zeros have the majority among the line values of the NumPy reference of the line peak kernel: then its scale
 is 1. And how many lines of a block of rows can meet the image at all.
 */
module RadonBalance {
  import opened Arithmetic
  import opened OrderStatistics
  import opened Radon
  import opened RadonPeaks
  import opened RadonReference

  // ----- majorities -----

  function Zeros(s: seq<real>): (n: nat)
    ensures n <= |s|
  {
    if s == [] then 0 else Zeros(s[..|s| - 1]) + if s[|s| - 1] == 0.0 then 1 else 0
  }

  lemma ZerosAppend(s: seq<real>, v: real)
    ensures Zeros(s + [v]) == Zeros(s) + if v == 0.0 then 1 else 0
  {
    assert (s + [v])[..|s|] == s;
  }

  lemma {:induction false} ZerosCount(s: seq<real>)
    ensures CountBelow(s, 0.0) + Zeros(s) <= |s| && Zeros(s) <= CountUpTo(s, 0.0)
  {
    if s != [] {
      ZerosCount(s[..|s| - 1]);
    }
  }

  lemma {:induction false} ZerosOfDeviations(s: seq<real>)
    ensures Zeros(Deviations(s, 0.0)) == Zeros(s)
  {
    if s != [] {
      var n := |s| - 1;
      ZerosOfDeviations(s[..n]);
      assert Deviations(s, 0.0)[..n] == Deviations(s[..n], 0.0);
    }
  }

  /** Where zeros have the majority the median and the deviation from it are zero. */
  lemma ZeroMajority(s: seq<real>)
    requires 2 * Zeros(s) > |s|
    ensures Median(s) == 0.0 && Mad(s, 0.0) == 0.0
  {
    hide Zeros, CountBelow, CountUpTo, Sort;
    ZerosCount(s);
    MedianFromCounts(s, 0.0);
    ZerosOfDeviations(s);
    ZerosCount(Deviations(s, 0.0));
    MedianFromCounts(Deviations(s, 0.0), 0.0);
  }

  lemma MajorityDivisor(d: Detection, s: seq<real>)
    requires 2 * Zeros(s) > |s|
    ensures Divisor(d, s) == 1.0
  {
    ZeroMajority(s);
    hide Median, Mad, Zeros;
  }

  // ----- sums along the shifts -----

  /** s times a step, row by row. */
  function Multiple(s: nat, step: int): int {
    if s == 0 then 0 else Multiple(s - 1, step) + step
  }

  lemma {:induction false} MultipleIs(s: nat, step: int)
    ensures Multiple(s, step) == s * step
  {
    if s > 0 {
      MultipleIs(s - 1, step);
      assert s * step == (s - 1) * step + step;
    }
  }

  /** How many columns the lines of a shift index lean over. */
  function Tilt(n: nat, s: nat): nat
    requires n > 0
  {
    if s < n - 1 then n - 1 - s else s - (n - 1)
  }

  function TiltSum(n: nat, s: nat): nat
    requires n > 0
  {
    if s == 0 then 0 else TiltSum(n, s - 1) + Tilt(n, s - 1)
  }

  lemma {:induction false} TiltSumIs(n: nat, s: nat)
    requires n > 0
    ensures s <= n ==> 2 * TiltSum(n, s) == s * (2 * n - 1 - s)
    ensures s >= n ==> 2 * TiltSum(n, s) == n * (n - 1) + (s - n) * (s - n + 1)
  {
    if s > 0 {
      TiltSumIs(n, s - 1);
      if s <= n {
        TiltStep(s, 2 * n - 1);
      } else {
        var t := s - n;
        assert t * (t + 1) == (t - 1) * t + 2 * t;
        assert (s - 1 - n) * (s - 1 - n + 1) == (t - 1) * t;
      }
    }
    assert n * (2 * n - 1 - n) == n * (n - 1);
  }

  lemma TiltStep(s: nat, m: nat)
    requires s > 0
    ensures s * (m - s) == (s - 1) * (m - (s - 1)) + m + 1 - 2 * s
  {}

  /** Over all shifts of a block. */
  lemma TiltTotal(n: nat)
    requires n > 0
    ensures TiltSum(n, 2 * n - 1) == n * (n - 1)
  {
    TiltSumIs(n, 2 * n - 1);
    assert (2 * n - 1 - n) * (2 * n - 1 - n + 1) == (n - 1) * n == n * (n - 1);
  }

  // ----- lines that miss the image -----

  /** A line that starts and ends to the same side of the image misses it. */
  lemma {:induction false} LineMisses(f: Frame, n: nat, b: nat, s: int, x: int)
    requires f.Valid() && PowerOfTwo(n) && -(n as int) < s < n
    requires (x < f.size && x + s < f.size) || (x >= f.size + f.width && x + s >= f.size + f.width)
    ensures Dense(f, n, b, s, x) == Zero
    decreases n
  {
    hide *;
    if n <= 1 {
      DenseOne(f, n, b, s, x);
      CellVanishes(f, b, x, n);
    } else {
      var h := n / 2;
      DenseHalves(f, n, h, b, s, x);
      HalfShift(s);
      LineMisses(f, h, 2 * b, Half(s), x);
      LineMisses(f, h, 2 * b + 1, Half(s), x + (s - Half(s)));
      PlusZero(Zero);
    }
  }

  /** The columns between which a line of a shift index can meet the image. */
  function From(f: Frame, n: nat, s: nat): int { f.size - if s > n - 1 then s - (n - 1) else 0 }

  function To(f: Frame, n: nat, s: nat): int { f.size + f.width + if s < n - 1 then n - 1 - s else 0 }

  /** The columns before c that lie in [lo, hi). */
  function Within(c: int, lo: int, hi: int): int {
    if c <= lo then 0 else if c >= hi then hi - lo else c - lo
  }

  lemma WithinStep(c: int, lo: int, hi: int)
    requires lo <= hi
    ensures Within(c + 1, lo, hi) == Within(c, lo, hi) + if lo <= c < hi then 1 else 0
  {}

  lemma MissIsZero(f: Frame, d: Detection, n: nat, b: nat, s: nat, x: int)
    requires d.Valid(f) && PowerOfTwo(n) && n <= f.size && s < 2 * n - 1 && Padded(f, x)
    requires !(From(f, n, s) <= x < To(f, n, s))
    ensures DenseRaw(f, d, n, b, s, x) == 0.0
  {
    LineMisses(f, n, b, s - (n - 1), x);
    ZeroLine(f, d, n, b, s, x);
    hide Dense, PowerOfTwo, LineAt;
    ZeroOver(d.root(1.0));
  }

  // ----- the majority of zeros in the array -----

  /** With no count threshold every line of the array counts. */
  lemma AlwaysValid(f: Frame, d: Detection, n: nat, b: nat, s: nat, x: int)
    requires d.Valid(f) && PowerOfTwo(n) && n <= f.size && s < 2 * n - 1 && Padded(f, x) && d.Threshold(n) <= 0.0
    ensures DenseValid(f, d, n, b, s, x)
  {
    hide PowerOfTwo, LineAt;
  }

  function Balance(sample: seq<real>): int { 2 * Zeros(sample) - |sample| }

  lemma BalanceStep(f: Frame, d: Detection, n: nat, b: nat, s: nat, x: nat)
    requires d.Valid(f) && PowerOfTwo(n) && n <= f.size && d.Threshold(n) <= 0.0
    requires s < 2 * n - 1 && x < Columns(f)
    ensures Balance(DenseSample(f, d, n, b, s, x + 1)) - Balance(DenseSample(f, d, n, b, s, x))
         >= if From(f, n, s) <= x < To(f, n, s) then -1 else 1
  {
    DenseSampleStep(f, d, n, b, s, x);
    hide PowerOfTwo, DenseValid, DenseRaw, Zeros, DenseSample, From, To;
    AlwaysValid(f, d, n, b, s, x);
    ZerosAppend(DenseSample(f, d, n, b, s, x), DenseRaw(f, d, n, b, s, x));
    if !(From(f, n, s) <= x < To(f, n, s)) {
      MissIsZero(f, d, n, b, s, x);
    }
  }

  lemma RowStep(f: Frame, n: nat, s: nat)
    requires f.Valid() && 0 < n <= f.size && s < 2 * n - 1 && f.width <= f.size
    ensures Multiple(s, f.size) - 2 * TiltSum(n, s) + Columns(f) - 2 * Within(Columns(f), From(f, n, s), To(f, n, s))
         >= Multiple(s + 1, f.size) - 2 * TiltSum(n, s + 1)
  {}

  lemma RowStart(f: Frame, n: nat, s: nat)
    requires f.Valid() && 0 < n <= f.size && s <= 2 * n - 1
    ensures Within(0, From(f, n, s), To(f, n, s)) == 0 && From(f, n, s) <= To(f, n, s)
  {}

  /** A frame no wider than its canvas is high has more lines that miss the image than lines that meet it. */
  lemma {:induction false} ArrayBalance(f: Frame, d: Detection, n: nat, b: nat, s: nat, x: nat)
    requires d.Valid(f) && PowerOfTwo(n) && n <= f.size && f.width <= f.size && d.Threshold(n) <= 0.0
    requires s <= 2 * n - 1 && x <= Columns(f) && (s == 2 * n - 1 ==> x == 0)
    ensures Balance(DenseSample(f, d, n, b, s, x))
         >= b + Multiple(s, f.size) - 2 * TiltSum(n, s) + x - 2 * Within(x, From(f, n, s), To(f, n, s))
    decreases b, s, x
  {
    hide PowerOfTwo, Balance, DenseSample, From, To, Within, Columns;
    RowStart(f, n, s);
    if x > 0 {
      ArrayBalance(f, d, n, b, s, x - 1);
      BalanceStep(f, d, n, b, s, x - 1);
      WithinStep(x - 1, From(f, n, s), To(f, n, s));
    } else if s > 0 {
      ArrayBalance(f, d, n, b, s - 1, Columns(f));
      RowStep(f, n, s - 1);
      DenseSampleEnds(f, d, n, b);
    } else if b > 0 {
      ArrayBalance(f, d, n, b - 1, 2 * n - 1, 0);
      RowStart(f, n, 2 * n - 1);
      DenseSampleEnds(f, d, n, b - 1);
      BlockSurplus(n, f.size);
    } else {
      DenseSampleEnds(f, d, n, 0);
      assert Balance([]) == 0 by { NoBalance(); }
    }
  }

  lemma NoBalance()
    ensures Balance([]) == 0
  {}

  /** Over a block at least as many lines more as it has rows. */
  lemma BlockSurplus(n: nat, m: nat)
    requires 0 < n <= m
    ensures Multiple(2 * n - 1, m) - 2 * TiltSum(n, 2 * n - 1) >= n
  {
    MultipleIs(2 * n - 1, m);
    TiltTotal(n);
    MulMonotone(n, m, 2 * n - 1);
    assert n * (2 * n - 1) == 2 * (n * (n - 1)) + n;
    assert m * (2 * n - 1) == (2 * n - 1) * m;
  }

  lemma ArrayDivisor(f: Frame, d: Detection, n: nat)
    requires d.Valid(f) && PowerOfTwo(n) && n <= f.size && f.width <= f.size && d.Threshold(n) <= 0.0
    ensures Divisor(d, ArraySample(f, d, n)) == 1.0
  {
    assert n > 0;
    hide Zeros, DenseSample, Divisor, PowerOfTwo, Blocks, From, To;
    BlocksCover(f, n);
    RowStart(f, n, 0);
    ArrayBalance(f, d, n, Blocks(f, n), 0, 0);
    MajorityDivisor(d, ArraySample(f, d, n));
  }

  // ----- the greatest canvas -----

  const CANVAS: nat := 32768

  lemma CanvasIsPower()
    ensures PowerOfTwo(CANVAS)
  {
    assert PowerOfTwo(1);
    assert PowerOfTwo(2);
    assert PowerOfTwo(4);
    assert PowerOfTwo(8);
    assert PowerOfTwo(16);
    assert PowerOfTwo(32);
    assert PowerOfTwo(64);
    assert PowerOfTwo(128);
    assert PowerOfTwo(256);
    assert PowerOfTwo(512);
    assert PowerOfTwo(1024);
    assert PowerOfTwo(2048);
    assert PowerOfTwo(4096);
    assert PowerOfTwo(8192);
    assert PowerOfTwo(16384);
  }
}
