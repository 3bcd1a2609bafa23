/**
 Samples on which the bisection of native/src/FusedIntegration.cpp misses the line of least absolute deviations: for
 every odd number of values from five on, one whose residuals tie at the first slope that is tried.
 */
module LinearFitTies {
  import opened OrderStatistics
  import opened LinearFit
  import opened LinearFitLaws
  import opened Reals

  /** p zeros, then 0, 2, 4 and so on up to 2 p. */
  function Tied(p: nat): (values: seq<real>)
    ensures |values| == 2 * p + 1
  {
    seq(2 * p + 1, i => Rise(p, i))
  }

  function Rise(p: int, i: int): real { if i < p then 0.0 else 2.0 * (i - p) as real }

  // ----- the first bisection -----

  lemma FirstSlope(p: nat)
    requires p > 0
    ensures SteepestSlope(Tied(p)) == 4.0
  {
    var rise, n := 2.0 * p as real, (2 * p) as real;
    assert Tied(p)[2 * p] == rise && Tied(p)[0] == 0.0 && rise == n;
    Fourfold(rise, n);
  }

  lemma Fourfold(rise: real, n: real)
    requires rise == n && n > 0.0
    ensures 4.0 * rise / n == 4.0
  {
    var q := 4.0 * rise / n;
    assert q * n == 4.0 * n;
    assert (q - 4.0) * n == 0.0;
  }

  lemma ResidualsTie(p: nat, i: nat)
    requires i < 2 * p + 1
    ensures Residuals(Tied(p), 2.0)[i] == -2.0 * (if i < p then i else p) as real
  {}

  /** At the slope 2 the last p + 1 values, more than half, share the least residual. */
  lemma MedianTies(p: nat)
    ensures Median(Residuals(Tied(p), 2.0)) == -2.0 * p as real
  {
    hide Median, CountBelow, CountUpTo, Residuals, Tied;
    var r := Residuals(Tied(p), 2.0);
    forall i | 0 <= i < |r|
      ensures r[i] >= -2.0 * p as real && (i >= p ==> r[i] == -2.0 * p as real)
    {
      ResidualsTie(p, i);
    }
    BelowInside(r, 0, 0, -2.0 * p as real);
    UpToInside(r, p, |r|, -2.0 * p as real);
    MedianFromCounts(r, -2.0 * p as real);
  }

  /** Only the first values lie off that line, all above it. */
  lemma {:induction false} TiedScore(p: nat, n: nat)
    requires n <= 2 * p + 1
    ensures var score := Score(Tied(p), -2.0 * p as real, 2.0, n);
        score >= 0.0 && (n >= 2 && p >= 2 ==> score >= 1.0)
  {
    if n > 0 {
      TiedScore(p, n - 1);
      var i := n - 1;
      var line := -2.0 * p as real + 2.0 * i as real;
      assert Tied(p)[i] - line == if i < p then 2.0 * (p - i) as real else 0.0;
      ScoreStep(Tied(p), -2.0 * p as real, 2.0, n, i as real, Tied(p)[i] - line);
    }
  }

  /** So the bisection goes on above the slope 2. */
  lemma SlopeTooSteep(p: nat, iterations: nat)
    requires p >= 2 && iterations > 0
    ensures FitLine(Tied(p), iterations).b >= 2.0
  {
    hide Median, Residuals, Score, SteepestSlope, Tied;
    var values := Tied(p);
    FirstSlope(p);
    MedianTies(p);
    TiedScore(p, |values|);
    BracketHalves(values, 2.0, 4.0, iterations - 1);
  }

  // ----- what it costs -----

  /** The signs of a steep line's residuals: values in front of the middle lie above it, the ones behind below. */
  function SideOf(p: int, i: int): int { if i < p then 1 else if i > p then -1 else 0 }

  /** The signed sums of the values, of one and of the positions. */
  function Signed(p: nat, n: nat): (int, int, int) {
    if n == 0 then (0, 0, 0)
    else
      var t, i, s := Signed(p, n - 1), n - 1, SideOf(p, n - 1);
      (t.0 + s * (if i < p then 0 else 2 * (i - p)), t.1 + s, t.2 + s * i)
  }

  lemma {:induction false} SignedInFront(p: nat, n: nat)
    requires n <= p
    ensures var t := Signed(p, n); t.0 == 0 && t.1 == n && 2 * t.2 == n * (n - 1)
  {
    if n > 0 {
      SignedInFront(p, n - 1);
    }
  }

  lemma {:induction false} SignedBehind(p: nat, q: nat)
    ensures var t := Signed(p, p + 1 + q);
        t.0 == -(q * (q + 1)) && t.1 == p - q && 2 * t.2 == p * (p - 1) - (2 * p * q + q * (q + 1))
  {
    if q == 0 {
      SignedInFront(p, p);
    } else {
      SignedBehind(p, q - 1);
    }
  }

  lemma AbsAtLeast(x: real, s: int)
    requires -1 <= s <= 1
    ensures Abs(x) >= s as real * x
  {}

  /** What the signed sums make of a line. */
  function Pull(t: (int, int, int), c: real, d: real): real {
    t.0 as real - c * t.1 as real - d * t.2 as real
  }

  lemma SignedNext(p: nat, n: nat, i: int, s: int, v: int)
    requires n > 0 && i == n - 1 && s == SideOf(p, i) && v == if i < p then 0 else 2 * (i - p)
    ensures var t := Signed(p, n - 1); Signed(p, n) == (t.0 + s * v, t.1 + s, t.2 + s * i)
  {
    hide SideOf;
  }

  lemma PullNext(t: (int, int, int), c: real, d: real, s: int, i: int, v: int, line: real)
    requires line == c + d * i as real && -1 <= s <= 1
    ensures Pull((t.0 + s * v, t.1 + s, t.2 + s * i), c, d) == Pull(t, c, d) + s as real * (v as real - line)
  {
    if s == 0 {
    } else {
      assert s == 1 || s == -1;
      assert c * (t.1 + s) as real == c * t.1 as real + c * s as real;
      assert d * (t.2 + s * i) as real == d * t.2 as real + d * (s * i) as real;
    }
  }

  lemma NoPull(p: nat, c: real, d: real)
    ensures Pull(Signed(p, 0), c, d) == 0.0
  {}

  lemma TiedAt(p: nat, i: nat, v: int)
    requires i < 2 * p + 1 && v == if i < p then 0 else 2 * (i - p)
    ensures Tied(p)[i] == v as real
  {}

  /** The deviation of any line is at least what those signs make of it. */
  lemma {:induction false} DeviationAtLeast(p: nat, c: real, d: real, n: nat)
    requires n <= 2 * p + 1
    ensures DeviationSum(Tied(p), c, d, n) >= Pull(Signed(p, n), c, d)
  {
    hide DeviationSum, Tied, Signed, Pull, SideOf, Abs;
    if n == 0 {
      NoPull(p, c, d);
      DeviationNonNegative(Tied(p), c, d, 0);
    } else {
      DeviationAtLeast(p, c, d, n - 1);
      var i := n - 1;
      var s, v, line := SideOf(p, i), if i < p then 0 else 2 * (i - p), c + d * i as real;
      TiedAt(p, i, v);
      OtherStep(Tied(p), c, d, n, line);
      Sides(p, i);
      AbsAtLeast(v as real - line, s);
      SignedNext(p, n, i, s, v);
      PullNext(Signed(p, n - 1), c, d, s, i, v, line);
    }
  }

  lemma Sides(p: int, i: int)
    ensures -1 <= SideOf(p, i) <= 1
  {}

  /** Every line as steep as that has a deviation of p (p + 1) at least. */
  lemma SteepDeviation(p: nat, c: real, d: real)
    requires d >= 2.0
    ensures DeviationSum(Tied(p), c, d, 2 * p + 1) >= (p * (p + 1)) as real
  {
    hide DeviationSum, Tied, Signed;
    DeviationAtLeast(p, c, d, 2 * p + 1);
    assert c * 0.0 == 0.0;
    SignedBehind(p, p);
    var square := p * (p + 1);
    assert Signed(p, 2 * p + 1).2 == -square by {
      assert 2 * p * p + p * (p + 1) - p * (p - 1) == 2 * square;
    }
    Times(d - 2.0, square as real);
    assert (d - 2.0) * square as real == d * square as real - 2.0 * square as real;
  }

  /** Twice the sum of the distances |v - i| of the first n values. */
  function Gentle(p: int, n: int): int {
    if n <= p then n * (n - 1) else p * (p - 1) + (n - p) * (3 * p + 1 - n)
  }

  lemma GentleNext(p: int, n: int)
    requires 0 < n <= 2 * p + 1
    ensures Gentle(p, n) == Gentle(p, n - 1) + 2 * if n - 1 < p then n - 1 else 2 * p - (n - 1)
  {
    if n > p + 1 {
      assert (n - p) * (3 * p + 1 - n) == (n - 1 - p) * (3 * p + 1 - (n - 1)) - (n - 1 - p) + (3 * p + 1 - n);
    }
  }

  lemma DistanceFrom(p: nat, i: nat)
    requires i < 2 * p + 1
    ensures Abs(Tied(p)[i] - i as real) == (if i < p then i else 2 * p - i) as real
  {}

  /** The line of slope 1 through the origin leaves p squared. */
  lemma {:induction false} GentleDeviation(p: nat, n: nat)
    requires n <= 2 * p + 1
    ensures 2.0 * DeviationSum(Tied(p), 0.0, 1.0, n) == Gentle(p, n) as real
  {
    hide DeviationSum, Tied, Abs, Gentle;
    if n == 0 {
      NothingDeviates(Tied(p), 0.0, 1.0);
      NoGentle(p);
    } else {
      GentleDeviation(p, n - 1);
      OtherStep(Tied(p), 0.0, 1.0, n, (n - 1) as real);
      DistanceFrom(p, n - 1);
      GentleNext(p, n);
    }
  }

  lemma NoGentle(p: nat)
    ensures Gentle(p, 0) == 0
  {}

  /**
   A sample of 2 p + 1 ascending values, p at least 2, for which every number of bisections from one on ends with a line
   whose deviation is at least p (p + 1), although there is one with p squared.
   */
  lemma TiesLoseTheBest(p: nat, iterations: nat)
    requires p >= 2 && iterations > 0
    ensures forall i, j :: 0 <= i < j < 2 * p + 1 ==> Tied(p)[i] <= Tied(p)[j]
    ensures var values := Tied(p); var line := FitLine(values, iterations);
        && DeviationSum(values, line.a, line.b, 2 * p + 1) >= (p * (p + 1)) as real
        && DeviationSum(values, 0.0, 1.0, 2 * p + 1) == (p * p) as real
  {
    hide DeviationSum, FitLine;
    var line := FitLine(Tied(p), iterations);
    SlopeTooSteep(p, iterations);
    SteepDeviation(p, line.a, line.b);
    GentleDeviation(p, 2 * p + 1);
    AllGentle(p);
  }

  lemma AllGentle(p: nat)
    ensures Gentle(p, 2 * p + 1) == 2 * (p * p)
  {
    assert (p + 1) * p == p * p + p && p * (p - 1) == p * p - p;
  }
}
