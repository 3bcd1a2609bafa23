/**
 What the Lanczos-3 weights of native/src/Lanczos3Table.cpp are, apart from how they are computed: the sine is its
 Taylor polynomial, the kernel its product of two sines, and the weights of a mirrored fraction the mirrored weights.
 */
module LanczosLaws {
  import opened LanczosTable
  import opened LanczosWarp
  import opened Reals

  // ----- the sine -----

  function Power(x: real, n: nat): real {
    if n == 0 then 1.0 else x * Power(x, n - 1)
  }

  function Factorial(n: nat): (f: nat)
    ensures f > 0
  {
    if n == 0 then 1 else n * Factorial(n - 1)
  }

  function Signed(even: bool, p: real): real { if even then p else -p }

  /** The k-th summand of the sine's Taylor series. */
  function Summand(x: real, k: nat): real {
    Signed(k % 2 == 0, Power(x, 2 * k + 1)) / Factorial(2 * k + 1) as real
  }

  function Taylor(x: real, n: nat): real {
    if n == 0 then 0.0 else Taylor(x, n - 1) + Summand(x, n - 1)
  }

  lemma NextPower(x: real, n: nat, p: real)
    requires p == Power(x, n)
    ensures Power(x, n + 2) == p * (x * x)
  {
    assert Power(x, n + 2) == x * (x * p);
  }

  lemma NextFactorial(n: nat)
    ensures Factorial(n + 2) as real == ((n + 1) * (n + 2)) as real * Factorial(n) as real
  {
    var f, m := Factorial(n), (n + 1) * (n + 2);
    assert Factorial(n + 2) == (n + 2) * ((n + 1) * f);
    assert (n + 2) * ((n + 1) * f) == m * f;
  }

  lemma SummandParts(x: real, k: nat, n: nat)
    requires n == 2 * k + 1
    ensures Summand(x, k) == Signed(k % 2 == 0, Power(x, n)) / Factorial(n) as real
  {}

  lemma DenominatorIs(k: nat, n: nat)
    requires n == 2 * k + 1
    ensures Denominator(k + 1) == ((n + 1) * (n + 2)) as real
  {}

  lemma NextSummand(x: real, k: nat, before: real, after: real)
    requires before == Summand(x, k) && after == Summand(x, k + 1)
    ensures after * Denominator(k + 1) == -(before * (x * x))
  {
    hide *;
    var n := 2 * k + 1;
    SummandParts(x, k, n);
    SummandParts(x, k + 1, n + 2);
    NextPower(x, n, Power(x, n));
    NextFactorial(n);
    DenominatorIs(k, n);
    Quotient(before, after, k % 2 == 0, Power(x, n), Factorial(n) as real, Power(x, n + 2), Factorial(n + 2) as real,
        Denominator(k + 1), x * x);
  }

  lemma Quotient(before: real, after: real, even: bool, p: real, f: real, q: real, g: real, d: real, x2: real)
    requires f > 0.0 && g > 0.0 && before == Signed(even, p) / f && after == Signed(!even, q) / g
    requires g == d * f && q == p * x2
    ensures after * d == -(before * x2)
  {
    var s, r := Signed(even, p), Signed(!even, q);
    assert r == -(s * x2);
    TimesQuotient(s, f, before);
    TimesQuotient(r, g, after);
    hide *;
    var lhs, rhs := after * d, before * x2;
    assert lhs * f == after * g;
    assert rhs * f == before * f * x2;
    Cancel(lhs + rhs, f);
  }

  lemma Cancel(a: real, f: real)
    requires f > 0.0 && a * f == 0.0
    ensures a == 0.0
  {}

  lemma NextTerm(x2: real, j: nat)
    requires 0 < j <= SERIES_TERMS
    ensures Term(x2, j) == Nest(x2, Term(x2, j + 1), j)
  {
    hide Nest;
  }

  lemma NestIs(x2: real, term: real, k: nat, nested: real)
    requires k > 0 && nested == Nest(x2, term, k)
    ensures nested == 1.0 - x2 * term / Denominator(k)
  {
    hide Denominator;
  }

  lemma NextTaylor(x: real, j: nat)
    requires j > 0
    ensures Taylor(x, j) == Taylor(x, j - 1) + Summand(x, j - 1)
  {}

  lemma {:induction false} TailOfSeries(x: real, j: nat)
    requires j <= SERIES_TERMS
    ensures Sine(x) == Taylor(x, j) + Summand(x, j) * Term(x * x, j + 1)
  {
    hide Summand, Term, Taylor, Denominator, Nest;
    if j == 0 {
      FirstSummand(x);
    } else {
      TailOfSeries(x, j - 1);
      NextSummand(x, j - 1, Summand(x, j - 1), Summand(x, j));
      NextTerm(x * x, j);
      NextTaylor(x, j);
      Unfold(x * x, j, Summand(x, j - 1), Summand(x, j), Term(x * x, j + 1), Term(x * x, j));
    }
  }

  lemma Unfold(x2: real, k: nat, before: real, after: real, term: real, nested: real)
    requires k > 0 && after * Denominator(k) == -(before * x2) && nested == Nest(x2, term, k)
    ensures before * nested == before + after * term
  {
    hide *;
    NestIs(x2, term, k, nested);
    Unnest(before, after, x2, term, Denominator(k), nested);
  }

  lemma FirstSummand(x: real)
    ensures Summand(x, 0) == x && Taylor(x, 0) == 0.0
  {
    assert Power(x, 1) == x * Power(x, 0);
    assert Factorial(1) == 1 * Factorial(0);
  }

  lemma Unnest(before: real, after: real, x2: real, term: real, d: real, nested: real)
    requires d > 0.0 && after * d == -(before * x2) && nested == 1.0 - x2 * term / d
    ensures before * nested == before + after * term
  {
    var q := x2 * term / d;
    TimesQuotient(x2 * term, d, q);
    hide *;
    var gap := before * q + after * term;
    assert gap * d == 0.0 by {
      assert before * q * d == before * (x2 * term);
      assert after * term * d == (after * d) * term;
      assert (before * x2) * term == before * (x2 * term);
    }
    Cancel(gap, d);
    assert before * (1.0 - q) == before - before * q;
  }

  /** The Horner loop evaluates the sine's Taylor polynomial of degree 25. */
  lemma SineIsTaylor(x: real)
    ensures Sine(x) == Taylor(x, 13)
  {
    TailOfSeries(x, SERIES_TERMS);
    assert Term(x * x, SERIES_TERMS + 1) == 1.0;
    hide Summand, Term;
  }

  // ----- the kernel -----

  /** The kernel is the product of the two sines over the product of their arguments. */
  lemma KernelProduct(d: real, e: real)
    requires d != 0.0 && 3.0 * e == d
    ensures RawWeight(d) * (PI * d) * (PI * e) == SinPi(d) * SinPi(e)
  {
    hide *;
    var c, s := Sinc(d), Sinc(e);
    RawIs(d, e, c, s);
    SincTimes(d, c);
    SincTimes(e, s);
    KernelParts(RawWeight(d), c, s, d, e, SinPi(d), SinPi(e));
  }

  lemma KernelParts(r: real, c: real, s: real, d: real, e: real, p: real, q: real)
    requires r == c * s && c * d * PI == p && s * e * PI == q
    ensures r * (PI * d) * (PI * e) == p * q
  {
    var a, b := PI * d, PI * e;
    assert c * a == p && s * b == q;
    FourFactors(r, c, s, a, b, p, q);
  }

  lemma FourFactors(r: real, c: real, s: real, a: real, b: real, p: real, q: real)
    requires r == c * s && c * a == p && s * b == q
    ensures r * a * b == p * q
  {
    hide *;
    Regroup(r, c, s, a, p);
    SameProduct(r * a, p * s, b);
    assert p * s * b == p * (s * b);
    SameProduct(s * b, q, p);
  }

  lemma Regroup(r: real, c: real, s: real, a: real, p: real)
    requires r == c * s && c * a == p
    ensures r * a == p * s
  {}

  // ----- the weights -----

  lemma MirroredFraction(node: nat, other: nat)
    requires node + other == NODES - 1
    ensures Fraction(other) == 1.0 - Fraction(node)
  {}

  lemma MirroredRaw(node: nat, other: nat, tap: nat)
    requires node + other == NODES - 1 && tap < 6
    ensures Raw(other, 5 - tap) == Raw(node, tap)
  {
    hide RawWeight, Fraction;
    MirroredFraction(node, other);
    RawEven(Fraction(node) - (tap as real - 2.0));
    assert -(Fraction(node) - (tap as real - 2.0)) == 1.0 - Fraction(node) - ((5 - tap) as real - 2.0);
  }

  lemma SumOfRaw(node: nat)
    ensures RawSum(node, 6)
      == Raw(node, 0) + Raw(node, 1) + Raw(node, 2) + Raw(node, 3) + Raw(node, 4) + Raw(node, 5)
  {
    hide Raw;
    assert RawSum(node, 2) == RawSum(node, 1) + Raw(node, 1);
    assert RawSum(node, 3) == RawSum(node, 2) + Raw(node, 2);
    assert RawSum(node, 4) == RawSum(node, 3) + Raw(node, 3);
    assert RawSum(node, 5) == RawSum(node, 4) + Raw(node, 4);
  }

  lemma MirroredSum(node: nat, other: nat)
    requires node + other == NODES - 1
    ensures RawSum(other, 6) == RawSum(node, 6)
  {
    hide *;
    SumOfRaw(node);
    SumOfRaw(other);
    MirroredRaw(node, other, 0);
    MirroredRaw(node, other, 1);
    MirroredRaw(node, other, 2);
    MirroredRaw(node, other, 3);
    MirroredRaw(node, other, 4);
    MirroredRaw(node, other, 5);
  }

  /** The table read backwards holds the taps backwards. */
  lemma MirroredNode(node: nat, other: nat, tap: nat)
    requires node + other == NODES - 1 && tap < 6
    ensures Node(other, 5 - tap) == Node(node, tap)
  {
    hide *;
    NodeIs(node, tap);
    NodeIs(other, 5 - tap);
    MirroredRaw(node, other, tap);
    MirroredSum(node, other);
  }

  lemma MirroredBasis(t: real, u: real)
    requires u == 1.0 - t
    ensures Basis(u, 0) == Basis(t, 3) && Basis(u, 1) == Basis(t, 2) && Basis(u, 2) == Basis(t, 1)
    ensures Basis(u, 3) == Basis(t, 0)
  {
    var a, b, c := t + 1.0, t - 1.0, t - 2.0;
    assert u == -b && u + 1.0 == -c && u - 1.0 == -t && u - 2.0 == -a;
    assert Basis(t, 0) == -(t * b * c) / 6.0 && Basis(t, 1) == a * b * c / 2.0;
    assert Basis(t, 2) == -(a * t * c) / 2.0 && Basis(t, 3) == a * t * b / 6.0;
    ThreeSigns(u, u - 1.0, u - 2.0, b, t, a);
    ThreeSigns(u + 1.0, u - 1.0, u - 2.0, c, t, a);
    ThreeSigns(u + 1.0, u, u - 2.0, c, b, a);
    ThreeSigns(u + 1.0, u, u - 1.0, c, b, t);
  }

  lemma ThreeSigns(p: real, q: real, r: real, a: real, b: real, c: real)
    requires p == -a && q == -b && r == -c
    ensures p * q * r == -(a * b * c) && a * b * c == c * b * a && a * b * c == c * a * b
  {}

  /** Between the nodes the interval is mirrored as well. */
  lemma MirroredTap(i: nat, other: nat, t: real, tap: nat)
    requires i + other == INTERVALS - 1 && tap < 6
    ensures TapValue(other, 1.0 - t, 5 - tap) == TapValue(i, t, tap)
  {
    hide Basis, Node;
    MirroredBasis(t, 1.0 - t);
    MirroredNode(i, other + 3, tap);
    MirroredNode(i + 1, other + 2, tap);
    MirroredNode(i + 2, other + 1, tap);
    MirroredNode(i + 3, other, tap);
    assert NODES == INTERVALS + 3;
  }

  /** At a node the tap is the table's entry. */
  lemma TapAtNode(i: nat, tap: nat)
    requires i + 3 < NODES
    ensures TapValue(i, 0.0, tap) == Node(i + 1, tap)
  {
    hide Node;
    assert Basis(0.0, 0) == 0.0 && Basis(0.0, 1) == 1.0 && Basis(0.0, 2) == 0.0 && Basis(0.0, 3) == 0.0;
  }

  /** Where a fraction lies in its interval. */
  function Inside(fraction: real): real
    requires 0.0 <= fraction < 1.0
  {
    fraction * INTERVALS as real - Interval(fraction) as real
  }

  lemma WeightInside(fraction: real, tap: nat)
    requires 0.0 <= fraction < 1.0
    ensures Weight(fraction, tap) == TapValue(Interval(fraction), Inside(fraction), tap)
  {
    hide Interval, Weight, TapValue;
    WeightIs(fraction, tap, Interval(fraction), Inside(fraction));
  }

  lemma MirroredInterval(fraction: real, other: real)
    requires 0.0 < fraction < 1.0 && other == 1.0 - fraction
    ensures Interval(fraction) < INTERVALS && Interval(other) < INTERVALS
    ensures if Inside(fraction) == 0.0
        then Interval(other) == INTERVALS - Interval(fraction) && Inside(other) == 0.0
        else Interval(other) == INTERVALS - 1 - Interval(fraction) && Inside(other) == 1.0 - Inside(fraction)
  {}

  lemma MirroredEntry(i: nat, other: nat, tap: nat)
    requires i + other == INTERVALS && i + 3 < NODES && other + 3 < NODES && tap < 6
    ensures TapValue(other, 0.0, 5 - tap) == TapValue(i, 0.0, tap)
  {
    hide Node, TapValue;
    TapAtNode(i, tap);
    TapAtNode(other, 5 - tap);
    MirroredNode(i + 1, other + 1, tap);
  }

  /** The weights of the mirrored fraction are the weights in reverse: no side is preferred. */
  lemma MirroredWeight(fraction: real, tap: nat)
    requires 0.0 < fraction < 1.0 && tap < 6
    ensures Weight(1.0 - fraction, 5 - tap) == Weight(fraction, tap)
  {
    hide *;
    var other := 1.0 - fraction;
    MirroredInterval(fraction, other);
    WeightInside(fraction, tap);
    WeightInside(other, 5 - tap);
    if Inside(fraction) == 0.0 {
      MirroredEntry(Interval(fraction), Interval(other), tap);
    } else {
      MirroredTap(Interval(fraction), Interval(other), Inside(fraction), tap);
    }
  }

  lemma NodeFraction(n: nat, f: real)
    requires n < 2048 && f == n as real / 2048.0
    ensures 0.0 <= f < 1.0 && f == Fraction(n + 1) && n == Interval(f) && Inside(f) == 0.0 && n + 3 < NODES
  {}

  lemma RawAt(node: nat, f: real, tap: nat)
    requires f == Fraction(node)
    ensures Raw(node, tap) == RawWeight(f - (tap as real - 2.0))
  {
    hide RawWeight, Fraction;
  }

  /** The kernel at the six samples around a position. */
  function Total(f: real): real {
    RawWeight(f + 2.0) + RawWeight(f + 1.0) + RawWeight(f) + RawWeight(f - 1.0) + RawWeight(f - 2.0)
        + RawWeight(f - 3.0)
  }

  lemma TotalOf(node: nat, f: real)
    requires f == Fraction(node)
    ensures RawSum(node, 6) == Total(f)
  {
    hide RawSum, RawWeight, Fraction;
    SixTaps(node, f);
  }

  lemma WeightIsEntry(n: nat, f: real, tap: nat)
    requires n + 3 < NODES && 0.0 <= f < 1.0 && Interval(f) == n && Inside(f) == 0.0
    ensures RawSum(n + 1, 6) > 0.0 && Weight(f, tap) == Raw(n + 1, tap) / RawSum(n + 1, 6)
  {
    hide *;
    WeightInside(f, tap);
    TapAtNode(n, tap);
    NodeIs(n + 1, tap);
  }

  /** At a fraction of the table a tap weighs the kernel at its distance, over the total of the six taps. */
  lemma WeightAtNode(n: nat, f: real, tap: nat)
    requires n < 2048 && f == n as real / 2048.0 && tap < 6
    ensures 0.0 <= f < 1.0
    ensures Weight(f, tap) * Total(f) == RawWeight(f - (tap as real - 2.0))
  {
    hide *;
    NodeFraction(n, f);
    WeightIsEntry(n, f, tap);
    TotalOf(n + 1, f);
    RawAt(n + 1, f, tap);
    Product(Weight(f, tap), Raw(n + 1, tap), RawSum(n + 1, 6), Total(f), RawWeight(f - (tap as real - 2.0)));
  }

  lemma Product(w: real, r: real, s: real, total: real, kernel: real)
    requires s > 0.0 && w == r / s && s == total && r == kernel
    ensures w * total == kernel
  {
    TimesQuotient(r, s, w);
  }
}
