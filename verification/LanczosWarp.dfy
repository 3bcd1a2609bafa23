/**
 Interpolated Lanczos-3 weights (native/src/Lanczos3Table.cpp) and the scalar warp of one output pixel with its
 cached weights (WarpPixelContext and WarpLanczos3Clamped in native/src/PortableKernels.cpp).
 */
module LanczosWarp {
  import opened LanczosTable
  import opened Reals

  // ----- cubic interpolation between the nodes -----

  /** The Lagrange basis through the nodes at -1, 0, 1, 2. */
  function Basis(t: real, k: nat): real {
    var a, b, c := t + 1.0, t - 1.0, t - 2.0;
    if k == 0 then -(t * b * c) / 6.0
    else if k == 1 then a * b * c / 2.0
    else if k == 2 then -(a * t * c) / 2.0
    else a * t * b / 6.0
  }

  /** Powers of the node positions, weighted by the basis, are powers of t. */
  lemma BasisMoments(t: real)
    ensures Basis(t, 0) + Basis(t, 1) + Basis(t, 2) + Basis(t, 3) == 1.0
    ensures -Basis(t, 0) + Basis(t, 2) + 2.0 * Basis(t, 3) == t
    ensures Basis(t, 0) + Basis(t, 2) + 4.0 * Basis(t, 3) == t * t
    ensures -Basis(t, 0) + Basis(t, 2) + 8.0 * Basis(t, 3) == t * t * t
  {
    var s, u := t * t, t * t * t;
    assert -(t * (t - 1.0) * (t - 2.0)) == -u + 3.0 * s - 2.0 * t;
    assert (t + 1.0) * (t - 1.0) * (t - 2.0) == u - 2.0 * s - t + 2.0;
    assert -((t + 1.0) * t * (t - 2.0)) == -u + s + 2.0 * t;
    assert (t + 1.0) * t * (t - 1.0) == u - t;
  }

  /** c0 + c1 x + c2 x^2 + c3 x^3 */
  datatype Cubic = Cubic(c0: real, c1: real, c2: real, c3: real) {
    function At(x: real): real { c0 + c1 * x + c2 * (x * x) + c3 * (x * x * x) }
  }

  /** Interpolation between the nodes is exact for every cubic. */
  lemma LagrangeReproduces(p: Cubic, t: real)
    ensures Basis(t, 0) * p.At(-1.0) + Basis(t, 1) * p.At(0.0) + Basis(t, 2) * p.At(1.0) + Basis(t, 3) * p.At(2.0)
      == p.At(t)
  {
    var b0, b1, b2, b3 := Basis(t, 0), Basis(t, 1), Basis(t, 2), Basis(t, 3);
    BasisMoments(t);
    hide Basis;
    assert p.At(-1.0) == p.c0 - p.c1 + p.c2 - p.c3;
    assert p.At(0.0) == p.c0;
    assert p.At(1.0) == p.c0 + p.c1 + p.c2 + p.c3;
    assert p.At(2.0) == p.c0 + 2.0 * p.c1 + 4.0 * p.c2 + 8.0 * p.c3;
    assert p.At(t) == p.c0 + p.c1 * t + p.c2 * (t * t) + p.c3 * (t * t * t);
    Combine(p, b0, b1, b2, b3, t, t * t, t * t * t, p.At(-1.0), p.At(0.0), p.At(1.0), p.At(2.0), p.At(t));
  }

  lemma Combine(p: Cubic, b0: real, b1: real, b2: real, b3: real, t: real, s: real, u: real, v0: real, v1: real,
                v2: real, v3: real, v: real)
    requires b0 + b1 + b2 + b3 == 1.0 && -b0 + b2 + 2.0 * b3 == t && b0 + b2 + 4.0 * b3 == s && -b0 + b2 + 8.0 * b3 == u
    requires v0 == p.c0 - p.c1 + p.c2 - p.c3 && v1 == p.c0 && v2 == p.c0 + p.c1 + p.c2 + p.c3
    requires v3 == p.c0 + 2.0 * p.c1 + 4.0 * p.c2 + 8.0 * p.c3 && v == p.c0 + p.c1 * t + p.c2 * s + p.c3 * u
    ensures b0 * v0 + b1 * v1 + b2 * v2 + b3 * v3 == v
  {
    hide *;
    SameProduct(v0, p.c0 - p.c1 + p.c2 - p.c3, b0);
    SameProduct(v1, p.c0, b1);
    SameProduct(v2, p.c0 + p.c1 + p.c2 + p.c3, b2);
    SameProduct(v3, p.c0 + 2.0 * p.c1 + 4.0 * p.c2 + 8.0 * p.c3, b3);
    SameProduct(b0 + b1 + b2 + b3, 1.0, p.c0);
    SameProduct(-b0 + b2 + 2.0 * b3, t, p.c1);
    SameProduct(b0 + b2 + 4.0 * b3, s, p.c2);
    SameProduct(-b0 + b2 + 8.0 * b3, u, p.c3);
  }

  /** One tap between node i + 1 and node i + 2. */
  function TapValue(i: nat, t: real, tap: nat): real
    requires i + 3 < NODES
  {
    Basis(t, 0) * Node(i, tap) + Basis(t, 1) * Node(i + 1, tap) + Basis(t, 2) * Node(i + 2, tap)
        + Basis(t, 3) * Node(i + 3, tap)
  }

  function TapSum(i: nat, t: real, n: nat): real
    requires i + 3 < NODES
  {
    if n == 0 then 0.0 else TapSum(i, t, n - 1) + TapValue(i, t, n - 1)
  }

  lemma {:induction false} TapSumIs(i: nat, t: real, n: nat, b0: real, b1: real, b2: real, b3: real)
    requires i + 3 < NODES && b0 == Basis(t, 0) && b1 == Basis(t, 1) && b2 == Basis(t, 2) && b3 == Basis(t, 3)
    ensures TapSum(i, t, n)
      == b0 * NodeSum(i, n) + b1 * NodeSum(i + 1, n) + b2 * NodeSum(i + 2, n) + b3 * NodeSum(i + 3, n)
  {
    hide Basis, Node;
    if n > 0 {
      TapSumIs(i, t, n - 1, b0, b1, b2, b3);
      MoreTaps(b0, NodeSum(i, n - 1), Node(i, n - 1), NodeSum(i, n), Basis(t, 0));
      MoreTaps(b1, NodeSum(i + 1, n - 1), Node(i + 1, n - 1), NodeSum(i + 1, n), Basis(t, 1));
      MoreTaps(b2, NodeSum(i + 2, n - 1), Node(i + 2, n - 1), NodeSum(i + 2, n), Basis(t, 2));
      MoreTaps(b3, NodeSum(i + 3, n - 1), Node(i + 3, n - 1), NodeSum(i + 3, n), Basis(t, 3));
    }
  }

  lemma MoreTaps(b: real, before: real, node: real, after: real, basis: real)
    requires after == before + node && b == basis
    ensures b * after == b * before + basis * node
  {}

  /** The interpolated taps add up to one before they are normalized. */
  lemma TotalIsOne(i: nat, t: real)
    requires i + 3 < NODES
    ensures TapSum(i, t, 6) == 1.0
  {
    hide *;
    TapSumIs(i, t, 6, Basis(t, 0), Basis(t, 1), Basis(t, 2), Basis(t, 3));
    RowSum(i);
    RowSum(i + 1);
    RowSum(i + 2);
    RowSum(i + 3);
    BasisMoments(t);
    FourOnes(Basis(t, 0), Basis(t, 1), Basis(t, 2), Basis(t, 3), NodeSum(i, 6), NodeSum(i + 1, 6), NodeSum(i + 2, 6),
        NodeSum(i + 3, 6));
  }

  lemma FourOnes(b0: real, b1: real, b2: real, b3: real, s0: real, s1: real, s2: real, s3: real)
    requires s0 == 1.0 && s1 == 1.0 && s2 == 1.0 && s3 == 1.0 && b0 + b1 + b2 + b3 == 1.0
    ensures b0 * s0 + b1 * s1 + b2 * s2 + b3 * s3 == 1.0
  {}

  /** The node interval of a fraction. */
  function Interval(fraction: real): (i: nat)
    requires 0.0 <= fraction < 1.0
    ensures i + 3 < NODES
  {
    (fraction * INTERVALS as real).Floor
  }

  /** The weight of a tap at a fraction. */
  function Weight(fraction: real, tap: nat): real
    requires 0.0 <= fraction < 1.0
  {
    var i := Interval(fraction);
    var t := fraction * INTERVALS as real - i as real;
    TotalIsOne(i, t);
    TapValue(i, t, tap) / TapSum(i, t, 6)
  }

  function WeightSum(fraction: real, n: nat): real
    requires 0.0 <= fraction < 1.0
  {
    if n == 0 then 0.0 else WeightSum(fraction, n - 1) + Weight(fraction, n - 1)
  }

  lemma WeightIs(fraction: real, tap: nat, i: nat, t: real)
    requires 0.0 <= fraction < 1.0 && i == Interval(fraction) && t == fraction * INTERVALS as real - i as real
    ensures Weight(fraction, tap) == TapValue(i, t, tap)
  {
    hide TapValue, TapSum, Interval;
    TotalIsOne(i, t);
    OverOne(TapValue(i, t, tap), TapSum(i, t, 6));
  }

  lemma {:induction false} WeightSumIs(fraction: real, n: nat, i: nat, t: real)
    requires 0.0 <= fraction < 1.0 && i == Interval(fraction) && t == fraction * INTERVALS as real - i as real
    ensures WeightSum(fraction, n) == TapSum(i, t, n)
  {
    hide Weight, TapValue;
    if n > 0 {
      WeightSumIs(fraction, n - 1, i, t);
      WeightIs(fraction, n - 1, i, t);
    }
  }

  /** At every fraction the six weights add up to exactly one. */
  lemma WeightsSumToOne(fraction: real)
    requires 0.0 <= fraction < 1.0
    ensures WeightSum(fraction, 6) == 1.0
  {
    var i := Interval(fraction);
    var t := fraction * INTERVALS as real - i as real;
    hide *;
    WeightSumIs(fraction, 6, i, t);
    TotalIsOne(i, t);
  }

  /** At fraction zero the weights select the sample itself. */
  lemma WeightsAtZero(tap: nat)
    requires tap < 6
    ensures Weight(0.0, tap) == if tap == 2 then 1.0 else 0.0
  {
    assert Interval(0.0) == 0 && 0.0 * INTERVALS as real - 0.0 == 0.0;
    WeightIs(0.0, tap, 0, 0.0);
    assert Basis(0.0, 0) == 0.0 && Basis(0.0, 1) == 1.0 && Basis(0.0, 2) == 0.0 && Basis(0.0, 3) == 0.0;
    assert 3 < NODES;
    hide Basis, Node, Weight;
    NodeAtZero(tap);
  }

  /** Lanczos3TableWeights. */
  method Lanczos3TableWeights(fraction: real, table: array2<real>, weights: array<real>)
    requires 0.0 <= fraction < 1.0 && weights.Length == 6
    requires table.Length0 == NODES && table.Length1 == 6
    requires forall node, tap :: 0 <= node < NODES && 0 <= tap < 6 ==> table[node, tap] == Node(node, tap)
    modifies weights
    ensures forall tap :: 0 <= tap < 6 ==> weights[tap] == Weight(fraction, tap)
  {
    hide Basis, Node;
    var u := fraction * INTERVALS as real;
    var i := u.Floor;
    assert i == Interval(fraction);
    var t := u - i as real;
    var b0, b1, b2, b3 := Basis(t, 0), Basis(t, 1), Basis(t, 2), Basis(t, 3);
    var total := 0.0;
    for tap := 0 to 6
      invariant total == TapSum(i, t, tap)
      invariant forall m :: 0 <= m < tap ==> weights[m] == TapValue(i, t, m)
    {
      var value := ((b0 * table[i, tap] + b1 * table[i + 1, tap]) + b2 * table[i + 2, tap]) + b3 * table[i + 3, tap];
      assert value == TapValue(i, t, tap);
      weights[tap] := value;
      total := total + value;
    }
    TotalIsOne(i, t);
    hide TapValue, TapSum;
    for tap := 0 to 6
      invariant forall m :: 0 <= m < tap ==> weights[m] == Weight(fraction, m)
      invariant forall m :: tap <= m < 6 ==> weights[m] == TapValue(i, t, m)
    {
      WeightIs(fraction, tap, i, t);
      weights[tap] := weights[tap] / total;
    }
  }
}
