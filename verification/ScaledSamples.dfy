/**
 Samples in other units: the medians and deviations of the kernels scale with their sample, so that a level of the line
 search has unit spread after its standardisation (native/src/PortableKernels.cpp).
 */
module ScaledSamples {
  import opened OrderStatistics
  import opened RadonPeaks
  import opened Reals

  /** A value in units of u. */
  function Per(v: real, u: real): real
    requires u > 0.0
  {
    v / u
  }

  function Scaled(s: seq<real>, u: real): (r: seq<real>)
    requires u > 0.0
    ensures |r| == |s|
  {
    seq(|s|, i requires 0 <= i < |s| => Per(s[i], u))
  }

  lemma PerIs(v: real, u: real, p: real)
    requires u > 0.0 && p == Per(v, u)
    ensures p * u == v
  {
    TimesQuotient(v, u, p);
  }

  lemma Smaller(p: real, q: real, u: real)
    requires u > 0.0
    ensures p * u < q * u <==> p < q
    ensures p * u == q * u <==> p == q
  {
    assert (q - p) * u == q * u - p * u;
  }

  lemma PerOrder(a: real, b: real, u: real)
    requires u > 0.0
    ensures Per(a, u) < Per(b, u) <==> a < b
  {
    hide Per;
    PerIs(a, u, Per(a, u));
    PerIs(b, u, Per(b, u));
    Smaller(Per(a, u), Per(b, u), u);
  }

  lemma PerMean(a: real, b: real, u: real)
    requires u > 0.0
    ensures Per((a + b) / 2.0, u) == (Per(a, u) + Per(b, u)) / 2.0
  {
    hide Per;
    var m := (a + b) / 2.0;
    PerIs(a, u, Per(a, u));
    PerIs(b, u, Per(b, u));
    PerIs(m, u, Per(m, u));
    SumTimes(Per(a, u), Per(b, u), u);
    Smaller(Per(m, u), (Per(a, u) + Per(b, u)) / 2.0, u);
  }

  lemma SumTimes(p: real, q: real, u: real)
    ensures (p + q) / 2.0 * u == (p * u + q * u) / 2.0
  {}

  lemma PerDistance(v: real, c: real, u: real)
    requires u > 0.0
    ensures Abs(Per(v, u) - Per(c, u)) == Per(Abs(v - c), u)
  {
    hide Per;
    var p, q, d := Per(v, u), Per(c, u), Per(Abs(v - c), u);
    PerIs(v, u, p);
    PerIs(c, u, q);
    PerIs(Abs(v - c), u, d);
    assert (p - q) * u == v - c && (q - p) * u == c - v;
    Smaller(p, q, u);
    Smaller(Abs(p - q), d, u);
  }

  lemma {:induction false} InsertScaled(s: seq<real>, v: real, u: real)
    requires u > 0.0
    ensures Insert(Scaled(s, u), Per(v, u)) == Scaled(Insert(s, v), u)
  {
    hide Per;
    if s != [] {
      var n := |s| - 1;
      PerOrder(v, s[n], u);
      InsertScaled(s[..n], v, u);
      assert Scaled(s, u)[..n] == Scaled(s[..n], u);
    }
  }

  lemma {:induction false} SortScaled(s: seq<real>, u: real)
    requires u > 0.0
    ensures Sort(Scaled(s, u)) == Scaled(Sort(s), u)
  {
    hide Per, Insert;
    if s != [] {
      var n := |s| - 1;
      SortScaled(s[..n], u);
      assert Scaled(s, u)[..n] == Scaled(s[..n], u);
      InsertScaled(Sort(s[..n]), s[n], u);
    }
  }

  /** The median of a scaled sample is the scaled median. */
  lemma MedianScaled(s: seq<real>, u: real)
    requires u > 0.0 && s != []
    ensures Median(Scaled(s, u)) == Per(Median(s), u)
  {
    hide Per, Sort;
    SortScaled(s, u);
    var r := Sort(s);
    var half := |r| / 2;
    if |r| % 2 == 0 {
      PerMean(r[half - 1], r[half], u);
    }
  }

  /** And so is the deviation about a scaled centre. */
  lemma MadScaled(s: seq<real>, c: real, u: real)
    requires u > 0.0 && s != []
    ensures Mad(Scaled(s, u), Per(c, u)) == Per(Mad(s, c), u)
  {
    hide Per, Median;
    MedianScaled(Deviations(s, c), u);
    var scaled := Scaled(s, u);
    forall i | 0 <= i < |s|
      ensures Deviations(scaled, Per(c, u))[i] == Scaled(Deviations(s, c), u)[i]
    {
      PerDistance(s[i], c, u);
    }
    assert Deviations(scaled, Per(c, u)) == Scaled(Deviations(s, c), u);
  }

  // ----- mirrored samples -----

  function Mirrored(s: seq<real>): (r: seq<real>)
    ensures |r| == |s|
  {
    seq(|s|, i requires 0 <= i < |s| => -s[i])
  }

  lemma {:induction false} MirroredCounts(s: seq<real>, v: real)
    ensures CountBelow(Mirrored(s), -v) == |s| - CountUpTo(s, v)
    ensures CountUpTo(Mirrored(s), -v) == |s| - CountBelow(s, v)
  {
    if s != [] {
      var n := |s| - 1;
      MirroredCounts(s[..n], v);
      assert Mirrored(s)[..n] == Mirrored(s[..n]);
    }
  }

  lemma AscendingCounts(r: seq<real>, m: nat)
    requires Ascending(r) && m < |r|
    ensures CountBelow(r, r[m]) <= m < CountUpTo(r, r[m])
  {
    hide CountBelow, CountUpTo;
    assert forall j :: m <= j < |r| ==> r[j] >= r[m];
    assert forall j :: 0 <= j < m + 1 ==> r[j] <= r[m];
    BelowInside(r, 0, m, r[m]);
    UpToInside(r, 0, m + 1, r[m]);
  }

  lemma MirroredSort(s: seq<real>, k: nat, m: nat)
    requires k + m == |s| - 1
    ensures Sort(Mirrored(s))[k] == -Sort(s)[m]
  {
    hide Sort, CountBelow, CountUpTo, Mirrored, Ascending;
    var v := Sort(s)[m];
    SortAscending(s);
    AscendingCounts(Sort(s), m);
    CountSort(s, v);
    MirroredStatistic(s, k, m, v);
  }

  lemma MirroredStatistic(s: seq<real>, k: nat, m: nat, v: real)
    requires k + m == |s| - 1 && CountBelow(s, v) <= m < CountUpTo(s, v)
    ensures Sort(Mirrored(s))[k] == -v
  {
    hide Sort, CountBelow, CountUpTo, Mirrored;
    MirroredCounts(s, v);
    OrderStatistic(Mirrored(s), k, -v);
  }

  /** The median takes no side: that of the mirrored sample is the mirrored median. */
  lemma MedianMirrored(s: seq<real>)
    requires s != []
    ensures Median(Mirrored(s)) == -Median(s)
  {
    hide Sort, Mirrored;
    var half := |s| / 2;
    MirroredSort(s, half, |s| - 1 - half);
    if |s| % 2 == 0 {
      MirroredSort(s, half - 1, half);
    }
  }

  /** A level with samples enough and any spread at all has a robust spread of one after it is divided. */
  lemma UnitSpread(d: Detection, sample: seq<real>)
    requires |sample| >= d.minimumScaleSamples && sample != [] && Mad(sample, Median(sample)) > 0.0
    ensures var z := Scaled(sample, Divisor(d, sample)); 1.4826 * Mad(z, Median(z)) == 1.0
  {
    hide Median, Mad, Per;
    var u, mad := Divisor(d, sample), Mad(sample, Median(sample));
    MedianScaled(sample, u);
    MadScaled(sample, Median(sample), u);
    PerIs(mad, u, Per(mad, u));
    Unit(mad, u, Per(mad, u));
  }

  lemma Unit(mad: real, u: real, p: real)
    requires u == 1.4826 * mad && p * u == mad && mad > 0.0
    ensures 1.4826 * p == 1.0
  {
    assert (1.4826 * p - 1.0) * mad == 0.0;
  }

  /** A level with too few samples, or with no spread, is not divided. */
  lemma NoSpread(d: Detection, sample: seq<real>)
    requires |sample| < d.minimumScaleSamples || sample == [] || Mad(sample, Median(sample)) == 0.0
    ensures Divisor(d, sample) == 1.0
  {
    hide Median, Mad;
  }
}
