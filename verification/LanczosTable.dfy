/**
 The deterministic Lanczos-3 weights of native/src/Lanczos3Table.cpp: a sine series over the reals, a table of
 normalized weights at the nodes (i - 1)/2048, and cubic interpolation between the nodes.
 */
module LanczosTable {
  import opened Reals

  const PI := 3.141592653589793
  const SERIES_TERMS: nat := 12
  const INTERVALS: nat := 2048
  const NODES: nat := INTERVALS + 3

  // ----- the sine series -----

  function Denominator(k: nat): (d: real)
    requires k > 0
    ensures d >= 6.0
  {
    (2 * k * (2 * k + 1)) as real
  }

  /** One step of the series. */
  function Nest(x2: real, term: real, k: nat): real
    requires k > 0
  {
    1.0 - x2 * term / Denominator(k)
  }

  /** The series from term k on, in Horner form. */
  function Term(x2: real, k: nat): real
    requires k > 0
    decreases SERIES_TERMS + 1 - k
  {
    if k > SERIES_TERMS then 1.0 else Nest(x2, Term(x2, k + 1), k)
  }

  /** The series of sin(x). */
  function Sine(x: real): real {
    x * Term(x * x, 1)
  }

  function Series(r: real): real {
    Sine(PI * r)
  }

  /** sin(pi v) by reduction to [-1/2, 1/2). */
  function SinPi(v: real): real {
    var n := (v + 0.5).Floor;
    if n % 2 != 0 then -Series(v - n as real) else Series(v - n as real)
  }

  /** DeterministicSinPi. */
  method DeterministicSinPi(v: real) returns (s: real)
    ensures s == SinPi(v)
  {
    hide Nest, Sine;
    var n := (v + 0.5).Floor;
    var r := v - n as real;
    var x := PI * r;
    var x2 := x * x;
    var term := 1.0;
    var k := SERIES_TERMS;
    while k >= 1
      invariant 0 <= k <= SERIES_TERMS && term == Term(x2, k + 1)
    {
      term := Nest(x2, term, k);
      k := k - 1;
    }
    s := x * term;
    SineIs(x, x2, term, s);
    if n % 2 != 0 {
      s := -s;
    }
  }

  lemma SineIs(x: real, x2: real, term: real, s: real)
    requires x2 == x * x && term == Term(x2, 1) && s == x * term
    ensures s == Sine(x)
  {
    hide Term;
  }

  /** Exactly zero at every integer. */
  lemma SinPiZero(n: int)
    ensures SinPi(n as real) == 0.0
  {
    hide Series;
    assert (n as real + 0.5).Floor == n;
    SeriesZero(n as real - n as real);
  }

  lemma SeriesZero(r: real)
    requires r == 0.0
    ensures Series(r) == 0.0
  {
    hide Term;
    assert PI * r == 0.0;
    assert Sine(0.0) == 0.0 * Term(0.0 * 0.0, 1);
  }

  lemma FloorShift(v: real)
    ensures (v + 1.0).Floor == v.Floor + 1
  {}

  /** Exactly antiperiodic. */
  lemma SinPiShift(v: real)
    ensures SinPi(v + 1.0) == -SinPi(v)
  {
    hide Series;
    FloorShift(v + 0.5);
    var n := (v + 0.5).Floor;
    assert (v + 1.0 + 0.5).Floor == n + 1;
    assert v + 1.0 - (n + 1) as real == v - n as real;
  }

  lemma SeriesOdd(r: real)
    ensures Series(-r) == -Series(r)
  {
    hide Term;
    var x := PI * r;
    assert PI * -r == -x;
    assert -x * -x == x * x;
  }

  /** Exactly odd. */
  lemma SinPiOdd(v: real)
    ensures SinPi(-v) == -SinPi(v)
  {
    var n, m := (v + 0.5).Floor, (-v + 0.5).Floor;
    SeriesOdd(v - n as real);
    if v - n as real == -0.5 {
      assert m == -n + 1;
      assert -v - m as real == v - n as real;
    } else {
      assert m == -n;
      assert -v - m as real == -(v - n as real);
    }
    hide Series;
  }

  // ----- bounds of the series -----

  lemma Shrink(x2: real, t: real, d: real, q: real, p: real)
    requires 0.0 <= x2 <= d && d >= 6.0 && 0.0 <= t <= 1.0 && q == x2 * t / d && p == x2 / d
    ensures 0.0 <= q <= p <= 1.0
  {
    assert q * d == x2 * t && p * d == x2;
    assert 0.0 <= x2 * t <= x2;
    assert q >= 0.0 && p <= 1.0;
    assert (p - q) * d >= 0.0;
  }

  lemma NestBounds(x2: real, t: real, k: nat)
    requires 0.0 <= x2 <= 6.0 && k > 0 && 0.0 <= t <= 1.0
    ensures 0.0 <= Nest(x2, t, k) <= 1.0 && Nest(x2, t, k) >= 1.0 - x2 / Denominator(k)
  {
    var d := Denominator(k);
    var q, p := x2 * t / d, x2 / d;
    assert Nest(x2, t, k) == 1.0 - q;
    hide *;
    Shrink(x2, t, d, q, p);
  }

  lemma {:induction false} TermBounds(x2: real, k: nat)
    requires 0.0 <= x2 <= 6.0 && k > 0
    ensures 0.0 <= Term(x2, k) <= 1.0
    ensures k <= SERIES_TERMS ==> Term(x2, k) >= 1.0 - x2 / Denominator(k)
    decreases SERIES_TERMS + 1 - k
  {
    hide Nest, Denominator;
    if k <= SERIES_TERMS {
      TermBounds(x2, k + 1);
      NestBounds(x2, Term(x2, k + 1), k);
    }
  }

  /** A positive factor does not change signs. */
  lemma Sign(a: real, b: real, ab: real)
    requires b > 0.0 && ab == a * b
    ensures (ab > 0.0 <==> a > 0.0) && (ab >= 0.0 <==> a >= 0.0) && (ab == 0.0 <==> a == 0.0)
  {}

  lemma AbsTimes(a: real, b: real)
    ensures Abs(a * b) == Abs(a) * Abs(b)
  {
    Times(Abs(a), Abs(b));
    assert -a * b == -(a * b) && a * -b == -(a * b) && -a * -b == a * b;
  }

  /** The series is its argument times a factor in [1 - x^2/6, 1]. */
  lemma SineFactor(x: real) returns (t: real)
    requires 0.0 <= x * x <= 2.5
    ensures Sine(x) == x * t && 0.58 <= t <= 1.0 && t >= 1.0 - x * x / 6.0
  {
    var x2 := x * x;
    TermBounds(x2, 1);
    t := Term(x2, 1);
    assert Denominator(1) == 6.0;
    hide Term, Denominator;
    SineIs(x, x2, t, x * t);
  }

  lemma SmallSquare(r: real, x: real)
    requires -0.5 <= r <= 0.5 && x == PI * r
    ensures 0.0 <= x * x <= 2.5 && x * x == PI * PI * (r * r)
  {
    Times(0.5 - r, 0.5 + r);
    assert (0.5 - r) * (0.5 + r) == 0.25 - r * r;
    assert x * x == PI * r * (PI * r) == PI * PI * (r * r);
    assert r * r >= 0.0;
  }

  /** sin(pi v) on the two cells around [0, 1). */
  lemma FirstCells(v: real)
    ensures -0.5 <= v < 0.5 ==> SinPi(v) == Sine(PI * v)
    ensures 0.5 <= v < 1.5 ==> SinPi(v) == -Sine(PI * (v - 1.0))
  {
    hide Sine;
    if -0.5 <= v < 0.5 {
      assert (v + 0.5).Floor == 0;
    } else if 0.5 <= v < 1.5 {
      assert (v + 0.5).Floor == 1;
    }
  }

  lemma PiTimes(r: real, x: real)
    requires x == PI * r
    ensures (x > 0.0 <==> r > 0.0) && (x < 0.0 <==> r < 0.0)
  {}

  /** Between the integers 0 and 1 the sine is positive. */
  lemma SinPiPositive(g: real)
    requires 0.0 < g < 1.0
    ensures SinPi(g) > 0.0
  {
    hide *;
    FirstCells(g);
    var x := if g < 0.5 then PI * g else PI * (g - 1.0);
    SmallSquare(if g < 0.5 then g else g - 1.0, x);
    var t := SineFactor(x);
    PiTimes(if g < 0.5 then g else g - 1.0, x);
    Sign(x, t, x * t);
    Sign(-x, t, -(x * t));
  }

  lemma ShorterThan(s: real, x: real, t: real)
    requires (s == x * t || s == -(x * t)) && 0.0 <= t <= 1.0
    ensures Abs(s) <= Abs(x)
  {
    var u := if x >= 0.0 then x else -x;
    Times(u, t);
    Times(u, 1.0 - t);
    assert u * (1.0 - t) == u - u * t;
    assert x < 0.0 ==> u * t == -(x * t);
  }

  lemma AbsPi(r: real, x: real)
    requires x == PI * r
    ensures Abs(x) == PI * Abs(r)
  {}

  lemma Reduced(v: real, r: real, x: real)
    requires r == v - (v + 0.5).Floor as real && x == PI * r
    ensures -0.5 <= r < 0.5 && (SinPi(v) == Sine(x) || SinPi(v) == -Sine(x))
  {
    hide Sine;
  }

  /** The sine is at most pi times the distance from the nearest integer. */
  lemma SinPiSize(v: real, r: real)
    requires r == v - (v + 0.5).Floor as real
    ensures Abs(SinPi(v)) <= PI * Abs(r)
  {
    hide *;
    var x := PI * r;
    Reduced(v, r, x);
    SmallSquare(r, x);
    var t := SineFactor(x);
    ShorterThan(SinPi(v), x, t);
    AbsPi(r, x);
  }

  // ----- the kernel -----

  function Sinc(x: real): real
    requires x != 0.0
  {
    SinPi(x) / (PI * x)
  }

  lemma SincTimes(x: real, c: real)
    requires x != 0.0 && c == Sinc(x)
    ensures c * x * PI == SinPi(x)
  {
    hide SinPi;
    TimesQuotient(SinPi(x), PI * x, c);
    assert c * (PI * x) == c * x * PI;
  }

  lemma SincEven(x: real)
    requires x != 0.0
    ensures Sinc(-x) == Sinc(x)
  {
    SinPiOdd(x);
    hide SinPi;
    SameQuotient(SinPi(x), PI * x);
    assert PI * -x == -(PI * x);
  }

  lemma SameQuotient(n: real, d: real)
    requires d != 0.0
    ensures -n / -d == n / d
  {
    var p, q := -n / -d, n / d;
    assert p * -d == -n && q * d == n;
    assert (p - q) * d == 0.0;
  }

  lemma Nearest(x: real)
    ensures Abs(x - (x + 0.5).Floor as real) <= Abs(x)
  {}

  /** sinc(x) is at most the distance from the nearest integer over |x|; never more than one. */
  lemma SincSize(x: real, c: real, r: real)
    requires x != 0.0 && c == Sinc(x) && r == x - (x + 0.5).Floor as real
    ensures Abs(c) * Abs(x) <= Abs(r) && Abs(c) <= 1.0
  {
    hide *;
    SincTimes(x, c);
    SinPiSize(x, r);
    Nearest(x);
    SizeChain(c, x, r, SinPi(x));
  }

  lemma SizeChain(c: real, x: real, r: real, s: real)
    requires c * x * PI == s && Abs(s) <= PI * Abs(r) && Abs(r) <= Abs(x) && x != 0.0
    ensures Abs(c) * Abs(x) <= Abs(r) && Abs(c) <= 1.0
  {
    var a, b, e := Abs(c), Abs(x), Abs(r);
    assert a >= 0.0 && b > 0.0;
    hide *;
    AbsTimes(c, x);
    AbsPi(c * x, s);
    var p := Abs(c * x);
    Drop(p, e);
    Quotients(a, b, p);
  }

  lemma Drop(p: real, e: real)
    requires PI * p <= PI * e
    ensures p <= e
  {}

  lemma Quotients(a: real, b: real, p: real)
    requires p == a * b && b > 0.0 && p <= b
    ensures a <= 1.0
  {
    Sign(1.0 - a, b, b - p);
  }

  lemma SincPositive(x: real)
    requires 0.0 < x < 1.0
    ensures Sinc(x) > 0.0
  {
    hide *;
    var c := Sinc(x);
    SinPiPositive(x);
    SincTimes(x, c);
    var y := c * x;
    PositivePi(y);
    Sign(c, x, y);
  }

  lemma PositivePi(y: real)
    requires y * PI > 0.0
    ensures y > 0.0
  {}

  /** Near zero the factor is close to one. */
  lemma SincLow(x: real)
    requires 0.0 < x <= 0.34
    ensures Sinc(x) >= 0.8
  {
    hide *;
    FirstCells(x);
    var y, c := PI * x, Sinc(x);
    SincTimes(x, c);
    SmallSquare(x, y);
    var t := SineFactor(y);
    CancelBoth(c, t, x, y);
    Times(0.34 - x, 0.34 + x);
    assert (0.34 - x) * (0.34 + x) == 0.34 * 0.34 - x * x;
    NearPi(x * x, y * y);
  }

  lemma NearPi(s: real, t: real)
    requires s <= 0.1156 && t == PI * PI * s
    ensures t <= 1.2
  {}

  lemma CancelBoth(c: real, t: real, x: real, y: real)
    requires y == PI * x && c * x * PI == y * t && x > 0.0
    ensures c == t
  {
    assert y * t == t * x * PI;
    assert (c - t) * x * PI == 0.0;
  }

  /** One raw weight: sinc(d) sinc(d/3), and one at the centre. */
  function RawWeight(d: real): real {
    if d == 0.0 then 1.0 else Sinc(d) * Sinc(d / 3.0)
  }

  lemma RawIs(d: real, e: real, p: real, s: real)
    requires d != 0.0 && 3.0 * e == d && p == Sinc(d) && s == Sinc(e)
    ensures RawWeight(d) == p * s
  {
    hide Sinc;
    assert d / 3.0 == e;
    SameProduct(Sinc(d), p, Sinc(d / 3.0));
    SameProduct(Sinc(d / 3.0), s, p);
  }

  lemma RawEven(d: real)
    ensures RawWeight(-d) == RawWeight(d)
  {
    if d != 0.0 {
      RawEvenAt(d, d / 3.0);
    }
  }

  lemma RawEvenAt(d: real, e: real)
    requires d != 0.0 && 3.0 * e == d
    ensures RawWeight(-d) == RawWeight(d)
  {
    hide *;
    SincEven(d);
    SincEven(e);
    RawIs(d, e, Sinc(d), Sinc(e));
    RawIs(-d, -e, Sinc(d), Sinc(e));
  }

  /** Zero at every other integer. */
  lemma RawZero(n: int)
    ensures RawWeight(n as real) == if n == 0 then 1.0 else 0.0
  {
    if n != 0 {
      hide *;
      var d := n as real;
      SinPiZero(n);
      var c := Sinc(d);
      SincTimes(d, c);
      NoFactor(c, d);
      RawIs(d, d / 3.0, c, Sinc(d / 3.0));
    }
  }

  lemma NoFactor(c: real, x: real)
    requires c * x * PI == 0.0 && x != 0.0
    ensures c == 0.0
  {
    assert c * x == 0.0;
  }

  /** sinc changes sign from one unit interval to the next and loses its denominator. */
  lemma NextSinc(g: real, c: real, d: real)
    requires g > 0.0 && c == Sinc(g) && d == Sinc(g + 1.0)
    ensures d * (g + 1.0) == -(c * g)
  {
    hide *;
    SinPiShift(g);
    SincTimes(g, c);
    SincTimes(g + 1.0, d);
    OppositeTimes(d * (g + 1.0), c * g);
  }

  lemma OppositeTimes(a: real, b: real)
    requires a * PI == -(b * PI)
    ensures a == -b
  {
    assert (a + b) * PI == 0.0;
  }

  /** The weights on one side of the sample: together positive. */
  lemma SidePositive(g: real)
    requires 0.0 < g < 1.0
    ensures RawWeight(g) + RawWeight(g + 1.0) + RawWeight(g + 2.0) > 0.0
  {
    SideAt(g, g + 1.0, g + 2.0, g / 3.0, (g + 1.0) / 3.0, (g + 2.0) / 3.0);
  }

  lemma SideAt(g: real, g1: real, g2: real, e0: real, e1: real, e2: real)
    requires 0.0 < g < 1.0 && g1 == g + 1.0 && g2 == g + 2.0 && 3.0 * e0 == g && 3.0 * e1 == g1 && 3.0 * e2 == g2
    ensures RawWeight(g) + RawWeight(g1) + RawWeight(g2) > 0.0
  {
    hide *;
    var p, m, l := Sinc(g), Sinc(g1), Sinc(g2);
    var s0, s1, s2 := Sinc(e0), Sinc(e1), Sinc(e2);
    SincPositive(g);
    SincPositive(e1);
    SincPositive(e2);
    SincSize(e1, s1, e1 - (e1 + 0.5).Floor as real);
    AtMostOne(s1);
    SincLow(e0);
    NextSinc(g, p, m);
    NextSinc(g1, m, l);
    RawIs(g, e0, p, s0);
    RawIs(g1, e1, m, s1);
    RawIs(g2, e2, l, s2);
    SidesOfSinc(g, p, m, l, s0, s1, s2);
  }

  lemma AtMostOne(s: real)
    requires Abs(s) <= 1.0
    ensures -1.0 <= s <= 1.0
  {}

  lemma SidesOfSinc(g: real, p: real, m: real, l: real, s0: real, s1: real, s2: real)
    requires 0.0 < g < 1.0 && p > 0.0 && s0 >= 0.8 && 0.0 < s1 <= 1.0 && s2 > 0.0
    requires m * (g + 1.0) == -(p * g) && l * (g + 2.0) == -(m * (g + 1.0))
    ensures p * s0 + m * s1 + l * s2 > 0.0
  {
    // m is negative and at most half of p, l is positive
    var n := -m;
    Times(p, g);
    Times(p, 1.0 - g);
    assert n * (g + 1.0) == p * g && p * (1.0 - g) == p - p * g;
    Sign(n, g + 1.0, n * (g + 1.0));
    Sign(0.5 * p - n, g + 1.0, 0.5 * (p * g) + 0.5 * p - n * (g + 1.0));
    Sign(l, g + 2.0, l * (g + 2.0));
    Times(l, s2);
    Times(p, s0 - 0.8);
    Times(n, 1.0 - s1);
    assert p * (s0 - 0.8) == p * s0 - 0.8 * p;
    assert n * (1.0 - s1) == n - n * s1 && n * s1 == -(m * s1);
  }

  lemma AbsProduct(p: real, s: real, b: real)
    requires Abs(p) <= b && Abs(s) <= 1.0
    ensures Abs(p * s) <= b
  {
    AbsTimes(p, s);
    Times(Abs(p), 1.0 - Abs(s));
    assert Abs(p) * (1.0 - Abs(s)) == Abs(p) - Abs(p) * Abs(s);
  }

  /** A little away from an integer other than zero the weight is little. */
  lemma SmallRaw(d: real, n: int, e: real)
    requires n != 0 && 0.0 < e <= 0.1 && (d == n as real + e || d == n as real - e)
    ensures Abs(RawWeight(d)) <= 2.0 * e
  {
    hide *;
    NearInteger(d, n, e);
    var third := d / 3.0;
    var p, s := Sinc(d), Sinc(third);
    SincSize(d, p, d - n as real);
    SincSize(third, s, third - (third + 0.5).Floor as real);
    TwiceAsSmall(Abs(p), Abs(d), e);
    RawIs(d, third, p, s);
    AbsProduct(p, s, 2.0 * e);
  }

  lemma NearInteger(d: real, n: int, e: real)
    requires n != 0 && 0.0 < e <= 0.1 && (d == n as real + e || d == n as real - e)
    ensures (d + 0.5).Floor == n && Abs(d - n as real) == e && Abs(d) >= 0.5 && d != 0.0
  {}

  lemma TwiceAsSmall(p: real, d: real, e: real)
    requires p * d <= e && d >= 0.5
    ensures p <= 2.0 * e || p <= 0.0
  {
    if p > 0.0 {
      Times(p, d - 0.5);
      assert p * (d - 0.5) == p * d - 0.5 * p;
    }
  }

  /** Next to the sample itself the weight is large. */
  lemma LargeRaw(e: real)
    requires 0.0 < e <= 0.1
    ensures RawWeight(e) >= 0.64 && RawWeight(-e) >= 0.64
  {
    var third := e / 3.0;
    hide *;
    SincLow(e);
    SincLow(third);
    RawIs(e, third, Sinc(e), Sinc(third));
    RawEven(e);
    BothLarge(Sinc(e), Sinc(third));
  }

  lemma BothLarge(p: real, s: real)
    requires p >= 0.8 && s >= 0.8
    ensures p * s >= 0.64
  {
    Times(p - 0.8, s - 0.8);
    assert (p - 0.8) * (s - 0.8) == p * s - 0.8 * p - 0.8 * s + 0.64;
  }

  // ----- the table -----

  /** The fraction of a node: the first and the last lie outside [0, 1]. */
  function Fraction(node: nat): real { (node as real - 1.0) / INTERVALS as real }

  /** The unnormalized weight of tap 0 .. 5, at offset -2 .. 3 from the sample. */
  function Raw(node: nat, tap: nat): real { RawWeight(Fraction(node) - (tap as real - 2.0)) }

  function RawSum(node: nat, n: nat): real {
    if n == 0 then 0.0 else RawSum(node, n - 1) + Raw(node, n - 1)
  }

  lemma SixTaps(node: nat, f: real)
    requires f == Fraction(node)
    ensures RawSum(node, 6)
      == RawWeight(f + 2.0) + RawWeight(f + 1.0) + RawWeight(f) + RawWeight(f - 1.0) + RawWeight(f - 2.0)
          + RawWeight(f - 3.0)
  {
    hide RawWeight, Fraction;
    assert Raw(node, 0) == RawWeight(f + 2.0) && Raw(node, 1) == RawWeight(f + 1.0) && Raw(node, 2) == RawWeight(f);
    assert Raw(node, 3) == RawWeight(f - 1.0) && Raw(node, 4) == RawWeight(f - 2.0)
      && Raw(node, 5) == RawWeight(f - 3.0);
    hide Raw;
    assert RawSum(node, 1) == Raw(node, 0);
    assert RawSum(node, 2) == RawSum(node, 1) + Raw(node, 1);
    assert RawSum(node, 3) == RawSum(node, 2) + Raw(node, 2);
    assert RawSum(node, 4) == RawSum(node, 3) + Raw(node, 3);
    assert RawSum(node, 5) == RawSum(node, 4) + Raw(node, 4);
  }

  lemma InnerTotal(f: real)
    requires 0.0 < f < 1.0
    ensures RawWeight(f + 2.0) + RawWeight(f + 1.0) + RawWeight(f) + RawWeight(f - 1.0) + RawWeight(f - 2.0)
      + RawWeight(f - 3.0) > 0.0
  {
    hide *;
    SidePositive(f);
    SidePositive(1.0 - f);
    RawEven(f - 1.0);
    RawEven(f - 2.0);
    RawEven(f - 3.0);
    assert -(f - 1.0) == 1.0 - f && -(f - 2.0) == 1.0 - f + 1.0 && -(f - 3.0) == 1.0 - f + 2.0;
  }

  lemma EdgeTotal(a: real, b: real, c: real, d: real, e: real, f: real)
    requires Abs(a) <= 0.001 && Abs(b) <= 0.001 && Abs(c) <= 0.001 && Abs(d) <= 0.001 && Abs(e) <= 0.001 && f >= 0.64
    ensures a + b + c + d + e + f > 0.0
  {}

  /** No row of the table is divided by zero. */
  lemma TotalPositive(node: nat)
    requires node < NODES
    ensures RawSum(node, 6) > 0.0
  {
    hide *;
    var f, e := Fraction(node), 1.0 / 2048.0;
    Fractions(node, e);
    SixTaps(node, f);
    if node == 0 {
      SmallRaw(f + 2.0, 2, e);
      SmallRaw(f + 1.0, 1, e);
      LargeRaw(e);
      SmallRaw(f - 1.0, -1, e);
      SmallRaw(f - 2.0, -2, e);
      SmallRaw(f - 3.0, -3, e);
      EdgeTotal(RawWeight(f + 2.0), RawWeight(f + 1.0), RawWeight(f - 1.0), RawWeight(f - 2.0), RawWeight(f - 3.0),
          RawWeight(f));
    } else if node == 1 {
      Integers(0, f);
    } else if node == 2049 {
      Integers(1, f);
    } else if node == 2050 {
      SmallRaw(f + 2.0, 3, e);
      SmallRaw(f + 1.0, 2, e);
      SmallRaw(f, 1, e);
      LargeRaw(e);
      SmallRaw(f - 2.0, -1, e);
      SmallRaw(f - 3.0, -2, e);
      assert f - 1.0 == e;
      EdgeTotal(RawWeight(f + 2.0), RawWeight(f + 1.0), RawWeight(f), RawWeight(f - 2.0), RawWeight(f - 3.0),
          RawWeight(f - 1.0));
    } else {
      InnerTotal(f);
    }
  }

  lemma Fractions(node: nat, e: real)
    requires node < NODES && e == 1.0 / 2048.0
    ensures node == 0 ==> Fraction(node) == -e
    ensures node == 1 ==> Fraction(node) == 0.0
    ensures node == 2049 ==> Fraction(node) == 1.0
    ensures node == 2050 ==> Fraction(node) == 1.0 + e
    ensures 1 < node < 2049 ==> 0.0 < Fraction(node) < 1.0
    ensures node <= 2050 && 0.0 < e <= 0.0005
  {}

  lemma Integers(n: int, f: real)
    requires f == n as real
    requires n == 0 || n == 1
    ensures RawWeight(f + 2.0) + RawWeight(f + 1.0) + RawWeight(f) + RawWeight(f - 1.0) + RawWeight(f - 2.0)
      + RawWeight(f - 3.0) == 1.0
  {
    hide *;
    RawZeroAt(n + 2, f + 2.0);
    RawZeroAt(n + 1, f + 1.0);
    RawZeroAt(n, f);
    RawZeroAt(n - 1, f - 1.0);
    RawZeroAt(n - 2, f - 2.0);
    RawZeroAt(n - 3, f - 3.0);
  }

  lemma RawZeroAt(n: int, f: real)
    requires f == n as real
    ensures RawWeight(f) == if n == 0 then 1.0 else 0.0
  {
    hide *;
    RawZero(n);
  }

  /** A normalized weight of the table. */
  function Node(node: nat, tap: nat): real
    requires node < NODES
  {
    TotalPositive(node);
    Raw(node, tap) / RawSum(node, 6)
  }

  function NodeSum(node: nat, n: nat): real
    requires node < NODES
  {
    if n == 0 then 0.0 else NodeSum(node, n - 1) + Node(node, n - 1)
  }

  lemma AddQuotients(a: real, b: real, t: real)
    requires t != 0.0
    ensures a / t + b / t == (a + b) / t
  {
    var p, q, s := a / t, b / t, (a + b) / t;
    assert p * t == a && q * t == b && s * t == a + b;
    assert (p + q - s) * t == 0.0;
  }

  lemma {:induction false} NodeSumIs(node: nat, n: nat)
    requires node < NODES
    ensures RawSum(node, 6) != 0.0 && NodeSum(node, n) == RawSum(node, n) / RawSum(node, 6)
  {
    hide Raw;
    TotalPositive(node);
    if n > 0 {
      NodeSumIs(node, n - 1);
      AddQuotients(RawSum(node, n - 1), Raw(node, n - 1), RawSum(node, 6));
    }
  }

  /** Every row of the table adds up to one. */
  lemma RowSum(node: nat)
    requires node < NODES
    ensures NodeSum(node, 6) == 1.0
  {
    NodeSumIs(node, 6);
    TotalPositive(node);
    hide *;
    Whole(RawSum(node, 6));
  }

  lemma Whole(t: real)
    requires t != 0.0
    ensures t / t == 1.0
  {}

  /** At fraction zero only the sample itself has a weight. */
  lemma NodeAtZero(tap: nat)
    requires tap < 6
    ensures Node(1, tap) == if tap == 2 then 1.0 else 0.0
  {
    assert 1 < NODES;
    hide *;
    var f := Fraction(1);
    Fractions(1, 1.0 / 2048.0);
    SixTaps(1, f);
    assert f == 0 as real;
    Integers(0, f);
    RawIsZero(tap);
    TotalPositive(1);
    NodeIs(1, tap);
    OverOne(Raw(1, tap), RawSum(1, 6));
  }

  lemma NodeIs(node: nat, tap: nat)
    requires node < NODES
    ensures RawSum(node, 6) > 0.0 && Node(node, tap) == Raw(node, tap) / RawSum(node, 6)
  {
    TotalPositive(node);
    hide Raw, RawSum;
  }

  lemma RawIsZero(tap: nat)
    requires tap < 6
    ensures Raw(1, tap) == if tap == 2 then 1.0 else 0.0
  {
    hide RawWeight;
    RawZeroAt(2 - tap as int, Fraction(1) - (tap as real - 2.0));
  }

  /** BuildTable: row `node` of the table holds its six normalized weights. */
  method BuildTable() returns (table: array2<real>)
    ensures fresh(table) && table.Length0 == NODES && table.Length1 == 6
    ensures forall node, tap :: 0 <= node < NODES && 0 <= tap < 6 ==> table[node, tap] == Node(node, tap)
  {
    hide Raw;
    table := new real[NODES, 6];
    for node := 0 to NODES
      invariant forall m, tap :: 0 <= m < node && 0 <= tap < 6 ==> table[m, tap] == Node(m, tap)
    {
      TotalPositive(node);
      var raw := new real[6];
      var total := 0.0;
      for tap := 0 to 6
        invariant total == RawSum(node, tap)
        invariant forall m :: 0 <= m < tap ==> raw[m] == Raw(node, m)
        invariant forall m, n :: 0 <= m < node && 0 <= n < 6 ==> table[m, n] == Node(m, n)
      {
        raw[tap] := Raw(node, tap);
        total := total + raw[tap];
      }
      for tap := 0 to 6
        invariant forall m, n :: 0 <= m < node && 0 <= n < 6 ==> table[m, n] == Node(m, n)
        invariant forall n :: 0 <= n < tap ==> table[node, n] == Node(node, n)
        invariant forall m :: 0 <= m < 6 ==> raw[m] == Raw(node, m)
      {
        table[node, tap] := raw[tap] / total;
      }
    }
  }
}
