/**
 What the line of native/src/FusedIntegration.cpp is a fit of, and what it rejects: every bisection keeps the better
 half of its bracket, straight samples get their own line, and each tolerance bounds its own side.
 */
module LinearFitLaws {
  import opened OrderStatistics
  import opened LinearFit
  import opened Reals

  // ----- the score is the slope of the deviation -----

  function SignOf(r: real): real { if r > 0.0 then 1.0 else if r < 0.0 then -1.0 else 0.0 }

  /** How many more values lie above the line than below it. */
  function Balance(values: seq<real>, a: real, b: real, n: nat): real
    requires n <= |values|
  {
    if n == 0 then 0.0 else Balance(values, a, b, n - 1) + SignOf(values[n - 1] - (a + b * (n - 1) as real))
  }

  lemma Steps(values: seq<real>, a: real, b: real, n: nat, i: real, line: real, sign: real)
    requires 0 < n <= |values| && i == (n - 1) as real && line == a + b * i && sign == SignOf(values[n - 1] - line)
    ensures DeviationSum(values, a, b, n) == DeviationSum(values, a, b, n - 1) + Abs(values[n - 1] - line)
    ensures Balance(values, a, b, n) == Balance(values, a, b, n - 1) + sign
    ensures Score(values, a, b, n) == Score(values, a, b, n - 1) + sign * i
  {
    hide *;
    OtherStep(values, a, b, n, line);
    BalanceStep(values, a, b, n, i, line);
    ScoreStep(values, a, b, n, i, values[n - 1] - line);
    Signs(values[n - 1] - line, sign, i);
  }

  lemma BalanceStep(values: seq<real>, a: real, b: real, n: nat, i: real, line: real)
    requires 0 < n <= |values| && i == (n - 1) as real && line == a + b * i
    ensures Balance(values, a, b, n) == Balance(values, a, b, n - 1) + SignOf(values[n - 1] - line)
  {
    hide SignOf;
  }

  lemma ScoreStep(values: seq<real>, a: real, b: real, n: nat, i: real, residual: real)
    requires 0 < n <= |values| && i == (n - 1) as real && residual == values[n - 1] - (a + b * i)
    ensures Score(values, a, b, n)
      == Score(values, a, b, n - 1) + if residual > 0.0 then i else if residual < 0.0 then -i else 0.0
  {}

  lemma Signs(residual: real, sign: real, i: real)
    requires sign == SignOf(residual)
    ensures sign * i == if residual > 0.0 then i else if residual < 0.0 then -i else 0.0
  {}

  lemma OtherStep(values: seq<real>, c: real, d: real, n: nat, line: real)
    requires 0 < n <= |values| && line == c + d * (n - 1) as real
    ensures DeviationSum(values, c, d, n) == DeviationSum(values, c, d, n - 1) + Abs(values[n - 1] - line)
  {
    hide Abs;
  }

  lemma OneDeviation(v: real, line: real, other: real, sign: real)
    requires sign == SignOf(v - line)
    ensures Abs(v - other) >= Abs(v - line) + sign * (line - other)
  {}

  lemma Difference(a: real, b: real, c: real, d: real, i: real, sign: real, line: real, other: real)
    requires line == a + b * i && other == c + d * i
    ensures sign * (line - other) == sign * (a - c) + sign * i * (b - d)
  {
    assert line - other == (a - c) + i * (b - d);
    assert sign * (i * (b - d)) == sign * i * (b - d);
  }

  /** The other line's deviation is at least this one's, and what the two sums say of its distance. */
  predicate Bounds(other: real, deviation: real, balance: real, score: real, x: real, y: real) {
    other >= deviation + balance * x + score * y
  }

  lemma PlaneStep(other: real, deviation: real, balance: real, score: real, x: real, y: real, sign: real, i: real,
                  e: real, f: real)
    requires Bounds(other, deviation, balance, score, x, y) && f >= e + (sign * x + sign * i * y)
    ensures Bounds(other + f, deviation + e, balance + sign, score + sign * i, x, y)
  {
    var si := sign * i;
    assert (balance + sign) * x == balance * x + sign * x;
    assert (score + si) * y == score * y + si * y;
  }

  /** Balance and score bound the deviation of every other line from below. */
  lemma {:induction false} SupportingPlane(values: seq<real>, a: real, b: real, c: real, d: real, n: nat)
    requires n <= |values|
    ensures Bounds(DeviationSum(values, c, d, n), DeviationSum(values, a, b, n), Balance(values, a, b, n),
        Score(values, a, b, n), a - c, b - d)
  {
    hide DeviationSum, Balance, Score, Bounds, SignOf, Abs;
    if n > 0 {
      SupportingPlane(values, a, b, c, d, n - 1);
      var i, v := (n - 1) as real, values[n - 1];
      var line, other := a + b * i, c + d * i;
      OneMore(values, a, b, c, d, n, i, v, line, other);
    } else {
      NoPlane(values, a, b, c, d);
    }
  }

  lemma OneMore(values: seq<real>, a: real, b: real, c: real, d: real, n: nat, i: real, v: real, line: real,
                other: real)
    requires 0 < n <= |values| && i == (n - 1) as real && v == values[n - 1] && line == a + b * i && other == c + d * i
    requires Bounds(DeviationSum(values, c, d, n - 1), DeviationSum(values, a, b, n - 1), Balance(values, a, b, n - 1),
                 Score(values, a, b, n - 1), a - c, b - d)
    ensures Bounds(DeviationSum(values, c, d, n), DeviationSum(values, a, b, n), Balance(values, a, b, n),
        Score(values, a, b, n), a - c, b - d)
  {
    hide *;
    var sign := SignOf(v - line);
    Steps(values, a, b, n, i, line, sign);
    OtherStep(values, c, d, n, other);
    OneDeviation(v, line, other, sign);
    Difference(a, b, c, d, i, sign, line, other);
    PlaneStep(DeviationSum(values, c, d, n - 1), DeviationSum(values, a, b, n - 1), Balance(values, a, b, n - 1),
        Score(values, a, b, n - 1), a - c, b - d, sign, i, Abs(v - line), Abs(v - other));
  }

  lemma NoPlane(values: seq<real>, a: real, b: real, c: real, d: real)
    ensures Bounds(DeviationSum(values, c, d, 0), DeviationSum(values, a, b, 0), Balance(values, a, b, 0),
        Score(values, a, b, 0), a - c, b - d)
  {}

  // ----- bisections -----

  /** As many values above the line of this slope as below it; so it is if no two values share a residual. */
  predicate Even(values: seq<real>, slope: real)
    requires values != []
  {
    Balance(values, Median(Residuals(values, slope)), slope, |values|) == 0.0
  }

  lemma NoBetterSlope(values: seq<real>, a: real, slope: real, c: real, d: real, score: real)
    requires values != [] && Balance(values, a, slope, |values|) == 0.0 && score == Score(values, a, slope, |values|)
    requires (score > 0.0 && d <= slope) || (score <= 0.0 && d >= slope)
    ensures DeviationSum(values, a, slope, |values|) <= DeviationSum(values, c, d, |values|)
  {
    hide *;
    SupportingPlane(values, a, slope, c, d, |values|);
    NotBetter(DeviationSum(values, c, d, |values|), DeviationSum(values, a, slope, |values|),
        Balance(values, a, slope, |values|), score, a - c, slope - d);
  }

  lemma NotBetter(other: real, deviation: real, balance: real, score: real, x: real, y: real)
    requires Bounds(other, deviation, balance, score, x, y) && balance == 0.0
    requires (score > 0.0 && y >= 0.0) || (score <= 0.0 && y <= 0.0)
    ensures deviation <= other
  {
    SignedProduct(score, y);
    NoProduct(balance, x);
  }

  lemma SignedProduct(score: real, step: real)
    requires (score > 0.0 && step >= 0.0) || (score <= 0.0 && step <= 0.0)
    ensures score * step >= 0.0
  {}

  lemma NoProduct(balance: real, step: real)
    requires balance == 0.0
    ensures balance * step == 0.0
  {}

  /** The midpoints of the bisections all have as many values above as below. */
  predicate AllEven(values: seq<real>, low: real, high: real, k: nat)
    requires values != []
    decreases k
  {
    k > 0 ==>
      var slope := 0.5 * (low + high);
      Even(values, slope) &&
      if Score(values, Median(Residuals(values, slope)), slope, |values|) > 0.0
      then AllEven(values, slope, high, k - 1)
      else AllEven(values, low, slope, k - 1)
  }

  lemma MiddleOf(low: real, high: real)
    requires low <= high
    ensures low <= 0.5 * (low + high) <= high
  {}

  /** No line of the first bracket beats the best one of the last bracket. */
  lemma {:induction false} BracketKeepsBest(values: seq<real>, low: real, high: real, k: nat, c: real, d: real)
    returns (a: real, b: real)
    requires values != [] && low <= d <= high && AllEven(values, low, high, k)
    ensures var r := Bracket(values, low, high, k); r.0 <= b <= r.1
    ensures DeviationSum(values, a, b, |values|) <= DeviationSum(values, c, d, |values|)
    decreases k
  {
    hide Median, Residuals, Score, Balance, DeviationSum;
    if k == 0 {
      return c, d;
    }
    var slope := 0.5 * (low + high);
    var intercept := Median(Residuals(values, slope));
    MiddleOf(low, high);
    var score := Score(values, intercept, slope, |values|);
    if score > 0.0 {
      if d >= slope {
        a, b := BracketKeepsBest(values, slope, high, k - 1, c, d);
      } else {
        NoBetterSlope(values, intercept, slope, c, d, score);
        a, b := BracketKeepsBest(values, slope, high, k - 1, intercept, slope);
      }
    } else if d <= slope {
      a, b := BracketKeepsBest(values, low, slope, k - 1, c, d);
    } else {
      NoBetterSlope(values, intercept, slope, c, d, score);
      a, b := BracketKeepsBest(values, low, slope, k - 1, intercept, slope);
    }
  }

  // ----- when the signs are even -----

  predicate Distinct(s: seq<real>) {
    forall i, j :: 0 <= i < j < |s| ==> s[i] != s[j]
  }

  lemma {:induction false} DistinctCount(s: seq<real>, x: real)
    requires Distinct(s)
    ensures multiset(s)[x] <= 1
  {
    if s != [] {
      var n := |s| - 1;
      DistinctCount(s[..n], x);
      assert s == s[..n] + [s[n]];
      if multiset(s[..n])[x] == 1 {
        assert x in s[..n];
      }
    }
  }

  lemma TwiceIn(s: seq<real>, i: nat, j: nat)
    requires i < j < |s| && s[i] == s[j]
    ensures multiset(s)[s[i]] >= 2
  {
    assert s == s[..i] + [s[i]] + s[i + 1..j] + [s[j]] + s[j + 1..];
  }

  lemma DistinctSort(s: seq<real>)
    requires Distinct(s)
    ensures Distinct(Sort(s)) && Ascending(Sort(s)) && |Sort(s)| == |s|
  {
    hide Sort;
    var r := Sort(s);
    SortPermutes(s);
    SortAscending(s);
    assert |multiset(s)| == |s| && |multiset(r)| == |r|;
    forall i, j | 0 <= i < j < |r|
      ensures r[i] != r[j]
    {
      DistinctCount(s, r[i]);
      if r[i] == r[j] {
        TwiceIn(r, i, j);
      }
    }
  }

  /** Around the median of distinct values as many lie above as below. */
  lemma DistinctMedian(s: seq<real>)
    requires s != [] && Distinct(s)
    ensures CountBelow(s, Median(s)) + CountUpTo(s, Median(s)) == |s|
  {
    hide Sort, CountBelow, CountUpTo;
    var r, m := Sort(s), Median(s);
    DistinctSort(s);
    CountSort(s, m);
    var h := |r| / 2;
    var up := |r| - h;
    assert forall i :: 0 <= i < h ==> r[i] < m;
    assert forall i :: up <= i < |r| ==> r[i] > m;
    assert forall i :: h <= i < |r| ==> r[i] >= m;
    assert forall i :: 0 <= i < up ==> r[i] <= m;
    BelowInside(r, 0, h, m);
    AllBelow(r, h, m);
    UpToInside(r, 0, up, m);
    NoneUpTo(r, up, m);
  }

  lemma ResidualAt(values: seq<real>, a: real, slope: real, i: nat)
    requires i < |values|
    ensures Residuals(values, slope)[i] - a == values[i] - (a + slope * i as real)
  {}

  lemma {:induction false} BalanceIsCount(values: seq<real>, a: real, slope: real, n: nat)
    requires n <= |values|
    ensures var r := Residuals(values, slope)[..n];
        Balance(values, a, slope, n) == (n - CountUpTo(r, a) - CountBelow(r, a)) as real
  {
    hide Residuals;
    var r := Residuals(values, slope);
    if n > 0 {
      BalanceIsCount(values, a, slope, n - 1);
      assert r[..n][..n - 1] == r[..n - 1];
      ResidualAt(values, a, slope, n - 1);
    }
  }

  /** Residuals that differ from each other leave as many values above the line as below it. */
  lemma DistinctIsEven(values: seq<real>, slope: real)
    requires values != [] && Distinct(Residuals(values, slope))
    ensures Even(values, slope)
  {
    hide Median, Distinct, Balance, CountBelow, CountUpTo;
    var r := Residuals(values, slope);
    assert r[..|values|] == r;
    DistinctMedian(r);
    BalanceIsCount(values, Median(r), slope, |values|);
  }

  // ----- straight samples -----

  function LineAt(a: real, b: real, i: int): real { a + b * i as real }

  /** The samples lie on the line alpha + beta i. */
  ghost predicate Straight(values: seq<real>, alpha: real, beta: real) {
    forall i :: 0 <= i < |values| ==> values[i] == LineAt(alpha, beta, i)
  }

  lemma StraightResidual(values: seq<real>, alpha: real, beta: real, slope: real, i: nat)
    requires Straight(values, alpha, beta) && i < |values|
    ensures Residuals(values, slope)[i] == LineAt(alpha, beta - slope, i)
  {
    assert values[i] == LineAt(alpha, beta, i);
    assert (beta - slope) * i as real == beta * i as real - slope * i as real;
  }

  lemma Apart(alpha: real, gap: real, i: int, j: int)
    requires gap != 0.0 && i < j
    ensures LineAt(alpha, gap, i) != LineAt(alpha, gap, j)
  {
    assert gap * (j - i) as real == gap * j as real - gap * i as real;
  }

  lemma Level(alpha: real, gap: real, i: int)
    requires gap == 0.0
    ensures LineAt(alpha, gap, i) == alpha
  {}

  lemma StraightIsEven(values: seq<real>, alpha: real, beta: real, slope: real)
    requires values != [] && Straight(values, alpha, beta)
    ensures Even(values, slope)
  {
    hide Straight, Even, Median, Residuals, LineAt;
    var r := Residuals(values, slope);
    if beta == slope {
      forall i | 0 <= i < |r|
        ensures r[i] == alpha
      {
        StraightResidual(values, alpha, beta, slope, i);
        Level(alpha, beta - slope, i);
      }
      SameIsEven(values, slope, alpha);
    } else {
      forall i, j | 0 <= i < j < |r|
        ensures r[i] != r[j]
      {
        StraightResidual(values, alpha, beta, slope, i);
        StraightResidual(values, alpha, beta, slope, j);
        Apart(alpha, beta - slope, i, j);
      }
      DistinctIsEven(values, slope);
    }
  }

  lemma SameIsEven(values: seq<real>, slope: real, alpha: real)
    requires values != [] && forall i :: 0 <= i < |values| ==> Residuals(values, slope)[i] == alpha
    ensures Even(values, slope)
  {
    hide Median, Residuals, Balance, CountBelow, CountUpTo;
    var r := Residuals(values, slope);
    BelowInside(r, 0, 0, alpha);
    UpToInside(r, 0, |r|, alpha);
    MedianFromCounts(r, alpha);
    AllZero(values, alpha, slope, |values|);
  }

  lemma {:induction false} AllZero(values: seq<real>, alpha: real, slope: real, n: nat)
    requires n <= |values| && forall i :: 0 <= i < |values| ==> Residuals(values, slope)[i] == alpha
    ensures Balance(values, alpha, slope, n) == 0.0
  {
    hide Residuals;
    if n > 0 {
      AllZero(values, alpha, slope, n - 1);
      ResidualAt(values, alpha, slope, n - 1);
    }
  }

  lemma {:induction false} StraightAllEven(values: seq<real>, alpha: real, beta: real, low: real, high: real, k: nat)
    requires values != [] && Straight(values, alpha, beta)
    ensures AllEven(values, low, high, k)
    decreases k
  {
    hide Straight, Even, Median, Residuals, Score;
    if k > 0 {
      var slope := 0.5 * (low + high);
      StraightIsEven(values, alpha, beta, slope);
      StraightAllEven(values, alpha, beta, slope, high, k - 1);
      StraightAllEven(values, alpha, beta, low, slope, k - 1);
    }
  }

  lemma {:induction false} NoDeviation(values: seq<real>, alpha: real, beta: real, n: nat)
    requires n <= |values| && Straight(values, alpha, beta)
    ensures DeviationSum(values, alpha, beta, n) == 0.0
  {
    hide DeviationSum;
    if n > 0 {
      NoDeviation(values, alpha, beta, n - 1);
      OtherStep(values, alpha, beta, n, LineAt(alpha, beta, n - 1));
    } else {
      NothingDeviates(values, alpha, beta);
    }
  }

  lemma NothingDeviates(values: seq<real>, a: real, b: real)
    ensures DeviationSum(values, a, b, 0) == 0.0
  {}

  lemma {:induction false} ZeroDeviation(values: seq<real>, a: real, b: real, n: nat)
    requires n <= |values| && DeviationSum(values, a, b, n) <= 0.0
    ensures forall i :: 0 <= i < n ==> values[i] == LineAt(a, b, i)
  {
    hide DeviationSum, Abs;
    if n > 0 {
      DeviationNonNegative(values, a, b, n - 1);
      OtherStep(values, a, b, n, LineAt(a, b, n - 1));
      NoDistance(values[n - 1], LineAt(a, b, n - 1));
      ZeroDeviation(values, a, b, n - 1);
    }
  }

  lemma NoDistance(v: real, w: real)
    ensures Abs(v - w) >= 0.0 && (Abs(v - w) == 0.0 ==> v == w)
  {}

  /** Straight samples: the last bracket still holds their slope. */
  lemma StraightInBracket(values: seq<real>, alpha: real, beta: real, low: real, high: real, k: nat)
    requires |values| >= 2 && Straight(values, alpha, beta) && low <= beta <= high
    ensures var r := Bracket(values, low, high, k); r.0 <= beta <= r.1
  {
    hide Bracket, AllEven, DeviationSum;
    StraightAllEven(values, alpha, beta, low, high, k);
    var a, b := BracketKeepsBest(values, low, high, k, alpha, beta);
    NoDeviation(values, alpha, beta, |values|);
    ZeroDeviation(values, a, b, |values|);
    assert values[0] == LineAt(a, b, 0) && values[1] == LineAt(a, b, 1);
    assert values[0] == LineAt(alpha, beta, 0) && values[1] == LineAt(alpha, beta, 1);
  }

  lemma SteepEnough(values: seq<real>, alpha: real, beta: real, n: real)
    requires |values| >= 2 && Straight(values, alpha, beta) && beta >= 0.0 && n == (|values| - 1) as real
    ensures SteepestSlope(values) >= beta
  {
    var rise := values[|values| - 1] - values[0];
    assert values[0] == LineAt(alpha, beta, 0) && values[|values| - 1] == LineAt(alpha, beta, |values| - 1);
    assert rise == beta * n;
    FourTimes(rise, beta, n, 4.0 * rise / n);
  }

  lemma FourTimes(rise: real, beta: real, n: real, q: real)
    requires n > 0.0 && rise == beta * n && q == 4.0 * rise / n && beta >= 0.0
    ensures q >= beta
  {
    assert q * n == 4.0 * (beta * n);
    assert (q - 4.0 * beta) * n == 0.0;
  }

  lemma Near(low: real, high: real, beta: real, power: real, width: real)
    requires low <= beta <= high && (high - low) * power == width && power >= 0.0
    ensures Abs(0.5 * (low + high) - beta) * (2.0 * power) <= width
  {
    var gap := Abs(0.5 * (low + high) - beta);
    assert 2.0 * gap <= high - low;
    Times(high - low - 2.0 * gap, power);
    assert (high - low - 2.0 * gap) * power == (high - low) * power - gap * (2.0 * power);
  }

  lemma {:induction false} PowerPositive(k: nat)
    ensures Power2(k) > 0.0
  {
    if k > 0 {
      PowerPositive(k - 1);
    }
  }

  /** Rising samples that lie on a line get its slope, up to half the width of the last bracket. */
  lemma StraightRecovered(values: seq<real>, alpha: real, beta: real, iterations: nat)
    requires |values| >= 2 && Straight(values, alpha, beta) && beta >= 0.0
    ensures Abs(FitLine(values, iterations).b - beta) * Power2(iterations + 1) <= SteepestSlope(values)
  {
    hide Straight, Bracket, SteepestSlope, Median, Residuals, DeviationSum, Abs;
    var high := SteepestSlope(values);
    SteepEnough(values, alpha, beta, (|values| - 1) as real);
    SteepestPositive(values);
    StraightInBracket(values, alpha, beta, 0.0, high, iterations);
    BracketHalves(values, 0.0, high, iterations);
    var r := Bracket(values, 0.0, high, iterations);
    PowerPositive(iterations);
    Near(r.0, r.1, beta, Power2(iterations), high);
  }

  // ----- what a line rejects -----

  lemma Divided(residual: real, scale: real, low: real, high: real)
    requires scale > 0.0
    ensures -low <= residual / scale <= high <==> -low * scale <= residual <= high * scale
  {
    var q := residual / scale;
    assert q * scale == residual;
    assert (q + low) * scale == residual + low * scale;
    assert (high - q) * scale == high * scale - residual;
  }

  /** A sample stays exactly when it lies at most the low tolerance below the line and the high tolerance above it. */
  lemma CloseIff(limits: Limits, line: Line, value: real, i: nat)
    requires limits.Scale(line) > 0.0
    ensures limits.Close(line, value, i) <==>
        line.a + line.b * i as real - limits.lowTolerance * limits.Scale(line) <= value
        && value <= line.a + line.b * i as real + limits.highTolerance * limits.Scale(line)
  {
    hide Limits.Scale;
    var residual := value - (line.a + line.b * i as real);
    Divided(residual, limits.Scale(line), limits.lowTolerance, limits.highTolerance);
  }

  /** The unit of the tolerances, squared: twice the mean deviation, stretched along the line's normal. */
  lemma ScaleSquared(limits: Limits, line: Line, scale: real)
    requires limits.Valid() && line.averageDeviation >= 0.0 && scale == limits.Scale(line)
    ensures scale >= 0.0
    ensures scale * scale == 4.0 * (line.averageDeviation * line.averageDeviation) * (1.0 + line.b * line.b)
  {
    hide *;
    StretchSquared(limits, line.b, Stretch(limits.root, line.b));
    ScaleIs(limits, line, Stretch(limits.root, line.b));
    ProductSquared(line.averageDeviation, Stretch(limits.root, line.b), scale, 1.0 + line.b * line.b);
  }

  lemma ScaleIs(limits: Limits, line: Line, stretch: real)
    requires stretch == Stretch(limits.root, line.b)
    ensures limits.Scale(line) == Unit(line.averageDeviation, stretch)
  {
    hide Stretch;
  }

  function Unit(deviation: real, stretch: real): real { 2.0 * deviation * stretch }

  lemma StretchSquared(limits: Limits, slope: real, r: real)
    requires limits.Valid() && r == Stretch(limits.root, slope)
    ensures r >= 0.0 && r * r == 1.0 + slope * slope
  {
    Square(slope);
  }

  lemma Square(b: real)
    ensures b * b >= 0.0
  {}

  lemma ProductSquared(d: real, r: real, scale: real, y: real)
    requires scale == Unit(d, r) && d >= 0.0 && r >= 0.0 && r * r == y
    ensures scale >= 0.0 && scale * scale == 4.0 * (d * d) * y
  {
    Times(d, r);
    assert scale == 2.0 * (d * r);
    assert d * r * (d * r) == d * d * (r * r);
  }

  /** The mean deviation of a fitted line is the mean of its samples' deviations. */
  lemma MeanDeviation(values: seq<real>, iterations: nat)
    requires |values| >= 2
    ensures var line := FitLine(values, iterations);
        line.averageDeviation * |values| as real == DeviationSum(values, line.a, line.b, |values|)
  {
    hide Bracket, SteepestSlope, Median, Residuals, DeviationSum;
    var line := FitLine(values, iterations);
    TimesQuotient(DeviationSum(values, line.a, line.b, |values|), |values| as real, line.averageDeviation);
  }

  /** The kept samples are exactly the close ones, at whatever position they stand. */
  lemma {:induction false} KeptIff(limits: Limits, s: seq<Pair>, line: Line, n: nat, p: Pair)
    requires limits.Scale(line) > 0.0 && n <= |s|
    ensures p in limits.Kept(s, line, n) <==> exists i: nat :: i < n && s[i] == p && limits.Close(line, p.value, i)
  {
    hide Limits.Scale, Limits.Close;
    if n > 0 {
      KeptIff(limits, s, line, n - 1, p);
    }
  }

  // ----- when the rounds end -----

  /** Fewer than five samples are never rejected. */
  lemma FewAreKept(limits: Limits, s: seq<Pair>, k: nat)
    requires |s| < 5
    ensures limits.Rounds(s, k) == s
  {}

  /** The rounds would not reject anything more: few samples, samples on their line, or all of them close to it. */
  ghost predicate Settled(limits: Limits, s: seq<Pair>) {
    |s| >= 5 ==>
      var line := FitLine(Values(s), limits.bisections);
      limits.Scale(line) <= 0.0 || limits.vanishes(limits.Scale(line))
      || forall i :: 0 <= i < |s| ==> limits.Close(line, s[i].value, i)
  }

  lemma {:induction false} AllClose(limits: Limits, s: seq<Pair>, line: Line, n: nat)
    requires limits.Scale(line) > 0.0 && n <= |s| && |limits.Kept(s, line, n)| == n
    ensures forall i :: 0 <= i < n ==> limits.Close(line, s[i].value, i)
  {
    hide Limits.Scale, Limits.Close;
    if n > 0 {
      AllClose(limits, s, line, n - 1);
    }
  }

  /** With as many rounds as samples, or more, what is left is settled. */
  lemma {:induction false} RoundsSettle(limits: Limits, s: seq<Pair>, k: nat)
    requires k >= |s|
    ensures Settled(limits, limits.Rounds(s, k))
    decreases k
  {
    hide Limits.Scale, Limits.Close, FitLine, Values, Limits.Kept;
    if |s| >= 5 {
      var line := FitLine(Values(s), limits.bisections);
      if !limits.Exact(line) {
        var kept := limits.Kept(s, line, |s|);
        if |kept| == |s| {
          AllClose(limits, s, line, |s|);
        } else {
          RoundsSettle(limits, kept, k - 1);
        }
      }
    }
  }
}
