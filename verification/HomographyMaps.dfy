/**
 The homogeneous forward map of native/src/DrizzleKernel.cpp (Homography::Map and Inverse), and the shape
 and area of the mapped square drop.
 */
module HomographyMaps {
  import opened Wrappers
  import opened PolygonClip
  import opened ConvexClip
  import opened DrizzleDrop
  import opened Reals

  /** A 3x3 map, row-major, applied to pixel-centre coordinates. */
  datatype Homography = Homography(
    m0: real, m1: real, m2: real, m3: real, m4: real, m5: real, m6: real, m7: real, m8: real) {

    function X(x: real, y: real): real { m0 * x + m1 * y + m2 }

    function Y(x: real, y: real): real { m3 * x + m4 * y + m5 }

    function W(x: real, y: real): real { m6 * x + m7 * y + m8 }

    /** Homography::Map; defined where the denominator is not zero. */
    function Map(x: real, y: real): Point
      requires W(x, y) != 0.0
    {
      Point(X(x, y) / W(x, y), Y(x, y) / W(x, y))
    }

    predicate IsAffine() { m6 == 0.0 && m7 == 0.0 && m8 == 1.0 }

    function Det(): real {
      m0 * (m4 * m8 - m5 * m7) - m1 * (m3 * m8 - m5 * m6) + m2 * (m3 * m7 - m4 * m6)
    }

    /** Homography::Inverse: the adjugate over the determinant, and an error for a singular map. */
    function Inverse(): Option<Homography> {
      var det := Det();
      if det == 0.0 then None
      else Some(Homography(
        (m4 * m8 - m5 * m7) / det, (m2 * m7 - m1 * m8) / det, (m1 * m5 - m2 * m4) / det,
        (m5 * m6 - m3 * m8) / det, (m0 * m8 - m2 * m6) / det, (m2 * m3 - m0 * m5) / det,
        (m3 * m7 - m4 * m6) / det, (m1 * m6 - m0 * m7) / det, (m0 * m4 - m1 * m3) / det))
    }
  }

  // ----- the inverse -----

  lemma Over(a: real, b: real, c: real, d: real, x: real, y: real, z: real, s: real)
    requires d != 0.0 && a * x + b * y + c * z == d * s
    ensures (a / d) * x + (b / d) * y + (c / d) * z == s
  {
    var p, q, r := a / d, b / d, c / d;
    assert p * d == a && q * d == b && r * d == c;
    assert (p * x + q * y + r * z - s) * d == 0.0;
  }

  /** The adjugate of the map takes homogeneous coordinates (a, b, w) back, up to the determinant. */
  lemma AdjugateX(h: Homography, x: real, y: real, a: real, b: real, w: real)
    requires a == h.X(x, y) && b == h.Y(x, y) && w == h.W(x, y)
    ensures (h.m4 * h.m8 - h.m5 * h.m7) * a + (h.m2 * h.m7 - h.m1 * h.m8) * b + (h.m1 * h.m5 - h.m2 * h.m4) * w
      == h.Det() * x
  {}

  lemma AdjugateY(h: Homography, x: real, y: real, a: real, b: real, w: real)
    requires a == h.X(x, y) && b == h.Y(x, y) && w == h.W(x, y)
    ensures (h.m5 * h.m6 - h.m3 * h.m8) * a + (h.m0 * h.m8 - h.m2 * h.m6) * b + (h.m2 * h.m3 - h.m0 * h.m5) * w
      == h.Det() * y
  {}

  lemma AdjugateW(h: Homography, x: real, y: real, a: real, b: real, w: real)
    requires a == h.X(x, y) && b == h.Y(x, y) && w == h.W(x, y)
    ensures (h.m3 * h.m7 - h.m4 * h.m6) * a + (h.m1 * h.m6 - h.m0 * h.m7) * b + (h.m0 * h.m4 - h.m1 * h.m3) * w
      == h.Det()
  {}

  lemma Scale(a: real, b: real, c: real, u: real, v: real, x: real, y: real, w: real, s: real)
    requires w != 0.0 && u * w == x && v * w == y && a * x + b * y + c * w == s
    ensures a * u + b * v + c == s / w
  {
    var r := s / w;
    assert r * w == s;
    assert (a * u + b * v + c - r) * w == a * (u * w) + b * (v * w) + c * w - r * w;
    ZeroProduct(a * u + b * v + c - r, w);
  }

  lemma ZeroProduct(a: real, w: real)
    requires w != 0.0 && a * w == 0.0
    ensures a == 0.0
  {}

  lemma OverRow(a: real, b: real, c: real, d: real, p: real, q: real, r: real, x: real, y: real, z: real, s: real)
    requires d != 0.0 && a * x + b * y + c * z == d * s && p == a / d && q == b / d && r == c / d
    ensures p * x + q * y + r * z == s
  {
    Over(a, b, c, d, x, y, z, s);
  }

  // The coordinates the inverse gives for the homogeneous image (a, b, w) of a point.

  lemma InverseRowX(h: Homography, g: Homography, x: real, y: real, a: real, b: real, w: real)
    requires h.Det() != 0.0 && g == h.Inverse().value && a == h.X(x, y) && b == h.Y(x, y) && w == h.W(x, y)
    ensures g.m0 * a + g.m1 * b + g.m2 * w == x
  {
    var det := h.Det();
    var p, q, r := h.m4 * h.m8 - h.m5 * h.m7, h.m2 * h.m7 - h.m1 * h.m8, h.m1 * h.m5 - h.m2 * h.m4;
    AdjugateX(h, x, y, a, b, w);
    hide *;
    SameProduct(p, h.m4 * h.m8 - h.m5 * h.m7, a);
    SameProduct(q, h.m2 * h.m7 - h.m1 * h.m8, b);
    SameProduct(r, h.m1 * h.m5 - h.m2 * h.m4, w);
    OverRow(p, q, r, det, g.m0, g.m1, g.m2, a, b, w, x);
  }

  lemma InverseRowY(h: Homography, g: Homography, x: real, y: real, a: real, b: real, w: real)
    requires h.Det() != 0.0 && g == h.Inverse().value && a == h.X(x, y) && b == h.Y(x, y) && w == h.W(x, y)
    ensures g.m3 * a + g.m4 * b + g.m5 * w == y
  {
    var det := h.Det();
    var p, q, r := h.m5 * h.m6 - h.m3 * h.m8, h.m0 * h.m8 - h.m2 * h.m6, h.m2 * h.m3 - h.m0 * h.m5;
    AdjugateY(h, x, y, a, b, w);
    hide *;
    SameProduct(p, h.m5 * h.m6 - h.m3 * h.m8, a);
    SameProduct(q, h.m0 * h.m8 - h.m2 * h.m6, b);
    SameProduct(r, h.m2 * h.m3 - h.m0 * h.m5, w);
    OverRow(p, q, r, det, g.m3, g.m4, g.m5, a, b, w, y);
  }

  lemma InverseRowW(h: Homography, g: Homography, x: real, y: real, a: real, b: real, w: real)
    requires h.Det() != 0.0 && g == h.Inverse().value && a == h.X(x, y) && b == h.Y(x, y) && w == h.W(x, y)
    ensures g.m6 * a + g.m7 * b + g.m8 * w == 1.0
  {
    var det := h.Det();
    var p, q, r := h.m3 * h.m7 - h.m4 * h.m6, h.m1 * h.m6 - h.m0 * h.m7, h.m0 * h.m4 - h.m1 * h.m3;
    AdjugateW(h, x, y, a, b, w);
    hide *;
    SameProduct(p, h.m3 * h.m7 - h.m4 * h.m6, a);
    SameProduct(q, h.m1 * h.m6 - h.m0 * h.m7, b);
    SameProduct(r, h.m0 * h.m4 - h.m1 * h.m3, w);
    OverRow(p, q, r, det, g.m6, g.m7, g.m8, a, b, w, 1.0);
  }

  lemma RatioOfRatios(x: real, w: real)
    requires w != 0.0
    ensures 1.0 / w != 0.0 && (x / w) / (1.0 / w) == x
  {
    var i, q := 1.0 / w, x / w;
    assert i * w == 1.0 && q * w == x;
    var r := q / i;
    assert r * i == q;
    assert r * i * w == r && q * w == x;
  }

  /** The inverse map takes the image of every point of the map's domain back to the point. */
  lemma InverseUndoesMap(h: Homography, x: real, y: real)
    requires h.Det() != 0.0 && h.W(x, y) != 0.0
    ensures var p := h.Map(x, y); var g := h.Inverse().value;
        g.W(p.x, p.y) != 0.0 && g.Map(p.x, p.y) == Point(x, y)
  {
    var p := h.Map(x, y);
    InverseCoordinates(h.Inverse().value, h.X(x, y), h.Y(x, y), h.W(x, y), p.x, p.y, x, y) by {
      InverseRowX(h, h.Inverse().value, x, y, h.X(x, y), h.Y(x, y), h.W(x, y));
      InverseRowY(h, h.Inverse().value, x, y, h.X(x, y), h.Y(x, y), h.W(x, y));
      InverseRowW(h, h.Inverse().value, x, y, h.X(x, y), h.Y(x, y), h.W(x, y));
      TimesQuotient(h.X(x, y), h.W(x, y), p.x);
      TimesQuotient(h.Y(x, y), h.W(x, y), p.y);
    }
  }

  lemma InverseCoordinates(g: Homography, a: real, b: real, w: real, u: real, v: real, x: real, y: real)
    requires w != 0.0 && u * w == a && v * w == b
    requires g.m0 * a + g.m1 * b + g.m2 * w == x
    requires g.m3 * a + g.m4 * b + g.m5 * w == y
    requires g.m6 * a + g.m7 * b + g.m8 * w == 1.0
    ensures g.W(u, v) != 0.0 && g.Map(u, v) == Point(x, y)
  {
    Scale(g.m0, g.m1, g.m2, u, v, a, b, w, x);
    Scale(g.m3, g.m4, g.m5, u, v, a, b, w, y);
    Scale(g.m6, g.m7, g.m8, u, v, a, b, w, 1.0);
    RatioOfRatios(x, w);
    RatioOfRatios(y, w);
  }

  /** The inverse of an affine map is affine. */
  lemma AffineInverse(h: Homography)
    requires h.IsAffine() && h.Det() != 0.0
    ensures h.Inverse().value.IsAffine() && h.Det() == h.m0 * h.m4 - h.m1 * h.m3
  {
    AffineMinors(h.m0, h.m1, h.m2, h.m3, h.m4, h.m5, h.m6, h.m7, h.m8);
    DetIs(h);
    hide Homography.Det;
    LastRowOver(h.m3 * h.m7 - h.m4 * h.m6, h.m1 * h.m6 - h.m0 * h.m7, h.m0 * h.m4 - h.m1 * h.m3, h.Det());
  }

  lemma DetIs(h: Homography)
    ensures h.Det() ==
      h.m0 * (h.m4 * h.m8 - h.m5 * h.m7) - h.m1 * (h.m3 * h.m8 - h.m5 * h.m6) + h.m2 * (h.m3 * h.m7 - h.m4 * h.m6)
  {}

  lemma AffineMinors(m0: real, m1: real, m2: real, m3: real, m4: real, m5: real, m6: real, m7: real, m8: real)
    requires m6 == 0.0 && m7 == 0.0 && m8 == 1.0
    ensures m3 * m7 - m4 * m6 == 0.0 && m1 * m6 - m0 * m7 == 0.0
    ensures m0 * (m4 * m8 - m5 * m7) - m1 * (m3 * m8 - m5 * m6) + m2 * (m3 * m7 - m4 * m6) == m0 * m4 - m1 * m3
  {
    SameProduct(m7, 0.0, m3);
    SameProduct(m6, 0.0, m4);
    SameProduct(m6, 0.0, m1);
    SameProduct(m7, 0.0, m0);
  }

  lemma LastRowOver(a: real, b: real, c: real, det: real)
    requires a == 0.0 && b == 0.0 && c == det && det != 0.0
    ensures a / det == 0.0 && b / det == 0.0 && c / det == 1.0
  {}

  // ----- one side of the horizon -----

  /** The denominators at the corners of a rectangle have one sign. */
  predicate Sided(h: Homography, left: real, right: real, top: real, bottom: real) {
    var w0, w1, w2, w3 := h.W(left, top), h.W(right, top), h.W(left, bottom), h.W(right, bottom);
    (w0 > 0.0 && w1 > 0.0 && w2 > 0.0 && w3 > 0.0) || (w0 < 0.0 && w1 < 0.0 && w2 < 0.0 && w3 < 0.0)
  }

  lemma Order(p: real, a: real, b: real)
    requires p >= 0.0 && a <= b
    ensures p * a <= p * b
  {
    assert p * (b - a) >= 0.0;
  }

  /** A linear form on an interval lies between its end values. */
  lemma Between(p: real, a: real, u: real, b: real, pa: real, pu: real, pb: real)
    requires a <= u <= b && pa == p * a && pu == p * u && pb == p * b
    ensures (pa <= pu || pb <= pu) && (pa >= pu || pb >= pu)
  {
    if p >= 0.0 {
      Order(p, a, u);
      Order(p, u, b);
    } else {
      Order(-p, a, u);
      Order(-p, u, b);
      assert -p * a == -pa && -p * u == -pu && -p * b == -pb;
    }
  }

  lemma DenominatorIs(h: Homography, x: real, y: real, px: real, qy: real)
    requires px == h.m6 * x && qy == h.m7 * y
    ensures h.W(x, y) == px + qy + h.m8
  {}

  /** Then so do the denominators everywhere inside. */
  lemma SidedInside(h: Homography, left: real, right: real, top: real, bottom: real, x: real, y: real)
    requires Sided(h, left, right, top, bottom) && left <= x <= right && top <= y <= bottom
    ensures h.W(x, y) != 0.0 && (h.W(x, y) > 0.0 <==> h.W(left, top) > 0.0)
  {
    hide Homography.W;
    var pl, px, pr, qt, qy, qb := h.m6 * left, h.m6 * x, h.m6 * right, h.m7 * top, h.m7 * y, h.m7 * bottom;
    DenominatorIs(h, x, y, px, qy);
    DenominatorIs(h, left, top, pl, qt);
    DenominatorIs(h, right, top, pr, qt);
    DenominatorIs(h, left, bottom, pl, qb);
    DenominatorIs(h, right, bottom, pr, qb);
    Between(h.m6, left, x, right, pl, px, pr);
    Between(h.m7, top, y, bottom, qt, qy, qb);
    CornerSigns(pl + qt + h.m8, pr + qt + h.m8, pl + qb + h.m8, pr + qb + h.m8, px + qy + h.m8,
                pl, px, pr, qt, qy, qb, h.m8);
  }

  /** A sum of two terms, each between its ends, has the common sign of the sums of the ends. */
  lemma CornerSigns(a: real, b: real, c: real, d: real, m: real, pl: real, px: real, pr: real, qt: real, qy: real,
                    qb: real, e: real)
    requires a == pl + qt + e && b == pr + qt + e && c == pl + qb + e && d == pr + qb + e && m == px + qy + e
    requires (pl <= px || pr <= px) && (pl >= px || pr >= px) && (qt <= qy || qb <= qy) && (qt >= qy || qb >= qy)
    requires (a > 0.0 && b > 0.0 && c > 0.0 && d > 0.0) || (a < 0.0 && b < 0.0 && c < 0.0 && d < 0.0)
    ensures m != 0.0 && (m > 0.0 <==> a > 0.0)
  {}

  lemma SidedPart(h: Homography, left: real, right: real, top: real, bottom: real, high: real, low: real)
    requires Sided(h, left, right, top, bottom) && left <= right && top <= high <= low <= bottom
    ensures Sided(h, left, right, high, low)
  {
    SidedInside(h, left, right, top, bottom, left, high);
    SidedInside(h, left, right, top, bottom, right, high);
    SidedInside(h, left, right, top, bottom, left, low);
    SidedInside(h, left, right, top, bottom, right, low);
    hide Homography.W;
  }

  lemma AffineSided(h: Homography, left: real, right: real, top: real, bottom: real)
    requires h.IsAffine()
    ensures Sided(h, left, right, top, bottom)
  {
    AffineDenominator(h, left, top);
    AffineDenominator(h, right, top);
    AffineDenominator(h, left, bottom);
    AffineDenominator(h, right, bottom);
    hide Homography.W;
  }

  // ----- the mapped square -----

  /** The denominator keeps one sign over the drop. */
  predicate OneSided(h: Homography, x: real, y: real, half: real) {
    var w0, w1, w2, w3 := h.W(x - half, y - half), h.W(x + half, y - half), h.W(x + half, y + half),
        h.W(x - half, y + half);
    (w0 > 0.0 && w1 > 0.0 && w2 > 0.0 && w3 > 0.0) || (w0 < 0.0 && w1 < 0.0 && w2 < 0.0 && w3 < 0.0)
  }

  function Quad(h: Homography, x: real, y: real, half: real): seq<Point>
    requires OneSided(h, x, y, half)
  {
    [h.Map(x - half, y - half), h.Map(x + half, y - half), h.Map(x + half, y + half), h.Map(x - half, y + half)]
  }

  /** The determinant of three homogeneous points, by columns. */
  function D3(a1: real, a2: real, a3: real, b1: real, b2: real, b3: real, c1: real, c2: real, c3: real): real {
    a1 * (b2 * c3 - b3 * c2) - a2 * (b1 * c3 - b3 * c1) + a3 * (b1 * c2 - b2 * c1)
  }

  /** The determinant is linear in its first row; s, t and o are its values for the rows x, y and 1. */
  lemma FirstRow(p: real, q: real, r: real, x1: real, x2: real, x3: real, y1: real, y2: real, y3: real, z1: real,
                 z2: real, z3: real,
                 b1: real, b2: real, b3: real, c1: real, c2: real, c3: real, s: real, t: real, o: real)
    requires z1 == p * x1 + q * y1 + r && z2 == p * x2 + q * y2 + r && z3 == p * x3 + q * y3 + r
    requires s == D3(x1, x2, x3, b1, b2, b3, c1, c2, c3)
    requires t == D3(y1, y2, y3, b1, b2, b3, c1, c2, c3)
    requires o == D3(1.0, 1.0, 1.0, b1, b2, b3, c1, c2, c3)
    ensures D3(z1, z2, z3, b1, b2, b3, c1, c2, c3) == p * s + q * t + r * o
  {
    var k1, k2, k3 := b2 * c3 - b3 * c2, b1 * c3 - b3 * c1, b1 * c2 - b2 * c1;
    ByCofactors(x1, x2, x3, b1, b2, b3, c1, c2, c3, k1, k2, k3);
    ByCofactors(y1, y2, y3, b1, b2, b3, c1, c2, c3, k1, k2, k3);
    ByCofactors(1.0, 1.0, 1.0, b1, b2, b3, c1, c2, c3, k1, k2, k3);
    ByCofactors(z1, z2, z3, b1, b2, b3, c1, c2, c3, k1, k2, k3);
    hide D3;
    Linear(p, q, r, x1, x2, x3, y1, y2, y3, z1, z2, z3, k1, k2, k3, s, t, o);
  }

  lemma ByCofactors(a1: real, a2: real, a3: real, b1: real, b2: real, b3: real, c1: real, c2: real, c3: real, k1: real,
                    k2: real, k3: real)
    requires k1 == b2 * c3 - b3 * c2 && k2 == b1 * c3 - b3 * c1 && k3 == b1 * c2 - b2 * c1
    ensures D3(a1, a2, a3, b1, b2, b3, c1, c2, c3) == a1 * k1 - a2 * k2 + a3 * k3
  {
    SameProduct(k1, b2 * c3 - b3 * c2, a1);
    SameProduct(k2, b1 * c3 - b3 * c1, a2);
    SameProduct(k3, b1 * c2 - b2 * c1, a3);
  }

  lemma Linear(p: real, q: real, r: real, x1: real, x2: real, x3: real, y1: real, y2: real, y3: real, z1: real,
               z2: real, z3: real,
               k1: real, k2: real, k3: real, s: real, t: real, o: real)
    requires z1 == p * x1 + q * y1 + r && z2 == p * x2 + q * y2 + r && z3 == p * x3 + q * y3 + r
    requires s == x1 * k1 - x2 * k2 + x3 * k3 && t == y1 * k1 - y2 * k2 + y3 * k3 && o == k1 - k2 + k3
    ensures z1 * k1 - z2 * k2 + z3 * k3 == p * s + q * t + r * o
  {
    SameProduct(z1, p * x1 + q * y1 + r, k1);
    SameProduct(z2, p * x2 + q * y2 + r, k2);
    SameProduct(z3, p * x3 + q * y3 + r, k3);
    SameProduct(s, x1 * k1 - x2 * k2 + x3 * k3, p);
    SameProduct(t, y1 * k1 - y2 * k2 + y3 * k3, q);
    SameProduct(o, k1 - k2 + k3, r);
  }

  lemma EqualRows(a1: real, a2: real, a3: real, b1: real, b2: real, b3: real)
    ensures D3(a1, a2, a3, a1, a2, a3, b1, b2, b3) == 0.0
    ensures D3(a1, a2, a3, b1, b2, b3, a1, a2, a3) == 0.0
    ensures D3(b1, b2, b3, a1, a2, a3, a1, a2, a3) == 0.0
  {}

  lemma SwapRows(a1: real, a2: real, a3: real, b1: real, b2: real, b3: real, c1: real, c2: real, c3: real)
    ensures D3(b1, b2, b3, a1, a2, a3, c1, c2, c3) == -D3(a1, a2, a3, b1, b2, b3, c1, c2, c3)
    ensures D3(a1, a2, a3, c1, c2, c3, b1, b2, b3) == -D3(a1, a2, a3, b1, b2, b3, c1, c2, c3)
    ensures D3(c1, c2, c3, b1, b2, b3, a1, a2, a3) == -D3(a1, a2, a3, b1, b2, b3, c1, c2, c3)
    ensures D3(b1, b2, b3, c1, c2, c3, a1, a2, a3) == D3(a1, a2, a3, b1, b2, b3, c1, c2, c3)
    ensures D3(c1, c2, c3, a1, a2, a3, b1, b2, b3) == D3(a1, a2, a3, b1, b2, b3, c1, c2, c3)
  {}

  /** With two of the rows x, y and 1 below, the map's last row leaves one coefficient. */
  lemma LastRow(h: Homography, x1: real, x2: real, x3: real, y1: real, y2: real, y3: real, w1: real, w2: real, w3: real,
                d: real)
    requires w1 == h.W(x1, y1) && w2 == h.W(x2, y2) && w3 == h.W(x3, y3)
    requires d == D3(x1, x2, x3, y1, y2, y3, 1.0, 1.0, 1.0)
    ensures D3(w1, w2, w3, x1, x2, x3, y1, y2, y3) == h.m8 * d
    ensures D3(w1, w2, w3, x1, x2, x3, 1.0, 1.0, 1.0) == -(h.m7 * d)
    ensures D3(w1, w2, w3, y1, y2, y3, 1.0, 1.0, 1.0) == h.m6 * d
  {
    SwapRows(x1, x2, x3, y1, y2, y3, 1.0, 1.0, 1.0);
    EqualRows(x1, x2, x3, y1, y2, y3);
    EqualRows(y1, y2, y3, x1, x2, x3);
    EqualRows(x1, x2, x3, 1.0, 1.0, 1.0);
    EqualRows(y1, y2, y3, 1.0, 1.0, 1.0);
    EqualRows(1.0, 1.0, 1.0, x1, x2, x3);
    EqualRows(1.0, 1.0, 1.0, y1, y2, y3);
    hide D3;
    FirstRow(h.m6, h.m7, h.m8, x1, x2, x3, y1, y2, y3, w1, w2, w3, x1, x2, x3, y1, y2, y3, 0.0, 0.0, d);
    FirstRow(h.m6, h.m7, h.m8, x1, x2, x3, y1, y2, y3, w1, w2, w3, x1, x2, x3, 1.0, 1.0, 1.0, 0.0, -d, 0.0);
    FirstRow(h.m6, h.m7, h.m8, x1, x2, x3, y1, y2, y3, w1, w2, w3, y1, y2, y3, 1.0, 1.0, 1.0, d, 0.0, 0.0);
  }

  /** Above a last row with known values, the middle row leaves two coefficients. */
  lemma LastTwoRows(p: real, q: real, r: real, x1: real, x2: real, x3: real, y1: real, y2: real, y3: real,
                    v1: real, v2: real, v3: real, w1: real, w2: real, w3: real, e: real, f: real, g: real)
    requires v1 == p * x1 + q * y1 + r && v2 == p * x2 + q * y2 + r && v3 == p * x3 + q * y3 + r
    requires D3(w1, w2, w3, x1, x2, x3, y1, y2, y3) == g
    requires D3(w1, w2, w3, x1, x2, x3, 1.0, 1.0, 1.0) == -f
    requires D3(w1, w2, w3, y1, y2, y3, 1.0, 1.0, 1.0) == e
    ensures D3(x1, x2, x3, v1, v2, v3, w1, w2, w3) == q * g - r * f
    ensures D3(y1, y2, y3, v1, v2, v3, w1, w2, w3) == r * e - p * g
    ensures D3(1.0, 1.0, 1.0, v1, v2, v3, w1, w2, w3) == p * f - q * e
  {
    SwapRows(w1, w2, w3, x1, x2, x3, y1, y2, y3);
    SwapRows(w1, w2, w3, x1, x2, x3, 1.0, 1.0, 1.0);
    SwapRows(w1, w2, w3, y1, y2, y3, 1.0, 1.0, 1.0);
    EqualRows(x1, x2, x3, w1, w2, w3);
    EqualRows(y1, y2, y3, w1, w2, w3);
    EqualRows(1.0, 1.0, 1.0, w1, w2, w3);
    SwapRows(v1, v2, v3, w1, w2, w3, x1, x2, x3);
    SwapRows(v1, v2, v3, w1, w2, w3, y1, y2, y3);
    SwapRows(v1, v2, v3, w1, w2, w3, 1.0, 1.0, 1.0);
    hide D3;
    FirstRow(p, q, r, x1, x2, x3, y1, y2, y3, v1, v2, v3, w1, w2, w3, x1, x2, x3, 0.0, g, -f);
    FirstRow(p, q, r, x1, x2, x3, y1, y2, y3, v1, v2, v3, w1, w2, w3, y1, y2, y3, -g, 0.0, e);
    FirstRow(p, q, r, x1, x2, x3, y1, y2, y3, v1, v2, v3, w1, w2, w3, 1.0, 1.0, 1.0, f, -e, 0.0);
  }

  lemma LowerRows(h: Homography, x1: real, x2: real, x3: real, y1: real, y2: real, y3: real,
                  v1: real, v2: real, v3: real, w1: real, w2: real, w3: real, d: real, e: real, f: real, g: real)
    requires v1 == h.Y(x1, y1) && v2 == h.Y(x2, y2) && v3 == h.Y(x3, y3)
    requires w1 == h.W(x1, y1) && w2 == h.W(x2, y2) && w3 == h.W(x3, y3)
    requires d == D3(x1, x2, x3, y1, y2, y3, 1.0, 1.0, 1.0) && e == h.m6 * d && f == h.m7 * d && g == h.m8 * d
    ensures D3(x1, x2, x3, v1, v2, v3, w1, w2, w3) == h.m4 * g - h.m5 * f
    ensures D3(y1, y2, y3, v1, v2, v3, w1, w2, w3) == h.m5 * e - h.m3 * g
    ensures D3(1.0, 1.0, 1.0, v1, v2, v3, w1, w2, w3) == h.m3 * f - h.m4 * e
  {
    hide D3;
    LastRow(h, x1, x2, x3, y1, y2, y3, w1, w2, w3, d);
    hide Homography.W;
    LastTwoRows(h.m3, h.m4, h.m5, x1, x2, x3, y1, y2, y3, v1, v2, v3, w1, w2, w3, e, f, g);
  }

  /** The homogeneous images of three points span the determinant times what the points span. */
  lemma AllRows(h: Homography, x1: real, x2: real, x3: real, y1: real, y2: real, y3: real, u1: real, u2: real, u3: real,
                v1: real, v2: real, v3: real, w1: real, w2: real, w3: real, d: real, det: real)
    requires u1 == h.X(x1, y1) && u2 == h.X(x2, y2) && u3 == h.X(x3, y3)
    requires v1 == h.Y(x1, y1) && v2 == h.Y(x2, y2) && v3 == h.Y(x3, y3)
    requires w1 == h.W(x1, y1) && w2 == h.W(x2, y2) && w3 == h.W(x3, y3)
    requires d == D3(x1, x2, x3, y1, y2, y3, 1.0, 1.0, 1.0) && det == h.Det()
    ensures D3(u1, u2, u3, v1, v2, v3, w1, w2, w3) == det * d
  {
    hide D3, Homography.Y, Homography.W, Homography.Det;
    var s, t, o := D3(x1, x2, x3, v1, v2, v3, w1, w2, w3), D3(y1, y2, y3, v1, v2, v3, w1, w2, w3),
        D3(1.0, 1.0, 1.0, v1, v2, v3, w1, w2, w3);
    FirstRow(h.m0, h.m1, h.m2, x1, x2, x3, y1, y2, y3, u1, u2, u3, v1, v2, v3, w1, w2, w3, s, t, o);
    hide Homography.X;
    LowerRows(h, x1, x2, x3, y1, y2, y3, v1, v2, v3, w1, w2, w3, d, h.m6 * d, h.m7 * d, h.m8 * d);
    Expand(h, d, h.m6 * d, h.m7 * d, h.m8 * d, s, t, o, det);
  }

  lemma Expand(h: Homography, d: real, e: real, f: real, g: real, s: real, t: real, o: real, det: real)
    requires e == h.m6 * d && f == h.m7 * d && g == h.m8 * d && det == h.Det()
    requires s == h.m4 * g - h.m5 * f && t == h.m5 * e - h.m3 * g && o == h.m3 * f - h.m4 * e
    ensures h.m0 * s + h.m1 * t + h.m2 * o == det * d
  {
    var a, b, c := h.m4 * h.m8 - h.m5 * h.m7, h.m3 * h.m8 - h.m5 * h.m6, h.m3 * h.m7 - h.m4 * h.m6;
    assert s == a * d && t == -(b * d) && o == c * d;
    assert det == h.m0 * a - h.m1 * b + h.m2 * c;
    hide *;
    SameProduct(s, a * d, h.m0);
    SameProduct(t, -(b * d), h.m1);
    SameProduct(o, c * d, h.m2);
    SameProduct(det, h.m0 * a - h.m1 * b + h.m2 * c, d);
  }

  // ----- turns and areas under the map -----

  lemma TurnIsD3(a: Point, b: Point, c: Point)
    ensures Turn(a, b, c) == D3(a.x, b.x, c.x, a.y, b.y, c.y, 1.0, 1.0, 1.0)
  {}

  /** A common factor of a column. */
  lemma ScaleColumn(a1: real, a2: real, a3: real, b1: real, b2: real, b3: real, c1: real, c2: real, c3: real, k: real,
                    u: real, v: real, w: real)
    requires u == a1 * k && v == b1 * k && w == c1 * k
    ensures D3(u, a2, a3, v, b2, b3, w, c2, c3) == k * D3(a1, a2, a3, b1, b2, b3, c1, c2, c3)
  {
    var p, q, r := b2 * c3 - b3 * c2, a2 * c3 - a3 * c2, a2 * b3 - a3 * b2;
    FirstColumn(a1, a2, a3, b1, b2, b3, c1, c2, c3, p, q, r);
    FirstColumn(u, a2, a3, v, b2, b3, w, c2, c3, p, q, r);
    hide D3;
    SameProduct(u, a1 * k, p);
    SameProduct(v, b1 * k, q);
    SameProduct(w, c1 * k, r);
    SameProduct(D3(a1, a2, a3, b1, b2, b3, c1, c2, c3), a1 * p - b1 * q + c1 * r, k);
  }

  lemma FirstColumn(a1: real, a2: real, a3: real, b1: real, b2: real, b3: real, c1: real, c2: real, c3: real, p: real,
                    q: real, r: real)
    requires p == b2 * c3 - b3 * c2 && q == a2 * c3 - a3 * c2 && r == a2 * b3 - a3 * b2
    ensures D3(a1, a2, a3, b1, b2, b3, c1, c2, c3) == a1 * p - b1 * q + c1 * r
  {
    SameProduct(p, b2 * c3 - b3 * c2, a1);
    SameProduct(q, a2 * c3 - a3 * c2, b1);
    SameProduct(r, a2 * b3 - a3 * b2, c1);
  }

  lemma RotateColumns(a1: real, a2: real, a3: real, b1: real, b2: real, b3: real, c1: real, c2: real, c3: real)
    ensures D3(a1, a2, a3, b1, b2, b3, c1, c2, c3) == D3(a2, a3, a1, b2, b3, b1, c2, c3, c1)
  {}

  /** Homogeneous points span the product of their denominators times what the points span. */
  lemma Homogeneous(a: Point, b: Point, c: Point, i: real, j: real, k: real,
                    u1: real, u2: real, u3: real, v1: real, v2: real, v3: real)
    requires u1 == a.x * i && u2 == b.x * j && u3 == c.x * k && v1 == a.y * i && v2 == b.y * j && v3 == c.y * k
    ensures D3(u1, u2, u3, v1, v2, v3, i, j, k) == i * (j * (k * Turn(a, b, c)))
  {
    TurnIsD3(a, b, c);
    RotateColumns(a.x, b.x, c.x, a.y, b.y, c.y, 1.0, 1.0, 1.0);
    RotateColumns(b.x, c.x, a.x, b.y, c.y, a.y, 1.0, 1.0, 1.0);
    RotateColumns(u3, a.x, b.x, v3, a.y, b.y, k, 1.0, 1.0);
    RotateColumns(a.x, b.x, u3, a.y, b.y, v3, 1.0, 1.0, k);
    RotateColumns(u2, u3, a.x, v2, v3, a.y, j, k, 1.0);
    RotateColumns(u3, a.x, u2, v3, a.y, v2, k, 1.0, j);
    hide D3, Turn;
    ScaleColumn(c.x, a.x, b.x, c.y, a.y, b.y, 1.0, 1.0, 1.0, k, u3, v3, k);
    ScaleColumn(b.x, u3, a.x, b.y, v3, a.y, 1.0, k, 1.0, j, u2, v2, j);
    ScaleColumn(a.x, u2, u3, a.y, v2, v3, 1.0, j, k, i, u1, v1, i);
  }

  lemma MapCoordinates(h: Homography, a: Point, p: Point, i: real)
    requires i == h.W(a.x, a.y) && i != 0.0 && p == h.Map(a.x, a.y)
    ensures h.X(a.x, a.y) == p.x * i && h.Y(a.x, a.y) == p.y * i
  {
    TimesQuotient(h.X(a.x, a.y), i, p.x);
    TimesQuotient(h.Y(a.x, a.y), i, p.y);
  }

  /** The map multiplies the turn s of a, b, c by its determinant d over the three denominators. */
  lemma MappedTurn(h: Homography, a: Point, b: Point, c: Point, i: real, j: real, k: real, t: real, d: real, s: real)
    requires i == h.W(a.x, a.y) && j == h.W(b.x, b.y) && k == h.W(c.x, c.y) && i != 0.0 && j != 0.0 && k != 0.0
    requires t == Turn(h.Map(a.x, a.y), h.Map(b.x, b.y), h.Map(c.x, c.y)) && d == h.Det() && s == Turn(a, b, c)
    ensures i * (j * (k * t)) == d * s
  {
    var p, q, r := h.Map(a.x, a.y), h.Map(b.x, b.y), h.Map(c.x, c.y);
    MapCoordinates(h, a, p, i);
    MapCoordinates(h, b, q, j);
    MapCoordinates(h, c, r, k);
    hide *;
    ByHomogeneous(p, q, r, i, j, k, h.X(a.x, a.y), h.X(b.x, b.y), h.X(c.x, c.y), h.Y(a.x, a.y), h.Y(b.x, b.y),
        h.Y(c.x, c.y), t);
    TurnIsD3(a, b, c);
    AllRows(h, a.x, b.x, c.x, a.y, b.y, c.y, h.X(a.x, a.y), h.X(b.x, b.y), h.X(c.x, c.y),
            h.Y(a.x, a.y), h.Y(b.x, b.y), h.Y(c.x, c.y), i, j, k, s, d);
  }

  lemma ByHomogeneous(a: Point, b: Point, c: Point, i: real, j: real, k: real,
                      u1: real, u2: real, u3: real, v1: real, v2: real, v3: real, t: real)
    requires u1 == a.x * i && u2 == b.x * j && u3 == c.x * k && v1 == a.y * i && v2 == b.y * j && v3 == c.y * k
    requires t == Turn(a, b, c)
    ensures D3(u1, u2, u3, v1, v2, v3, i, j, k) == i * (j * (k * t))
  {
    Homogeneous(a, b, c, i, j, k, u1, u2, u3, v1, v2, v3);
  }

  lemma SignOfProduct(i: real, j: real, k: real, t: real, d: real, s: real)
    requires i * (j * (k * t)) == d * s && d != 0.0 && s > 0.0
    requires (i > 0.0 && j > 0.0 && k > 0.0) || (i < 0.0 && j < 0.0 && k < 0.0)
    ensures if (d > 0.0) == (i > 0.0) then t > 0.0 else t < 0.0
  {
    ProductSign(d, s);
    ProductSign(k, t);
    ProductSign(j, k * t);
    ProductSign(i, j * (k * t));
    hide *;
  }

  lemma ProductSign(a: real, b: real)
    requires a != 0.0
    ensures a * b == 0.0 <==> b == 0.0
    ensures a * b > 0.0 <==> (a > 0.0 && b > 0.0) || (a < 0.0 && b < 0.0)
  {}

  lemma TurnOf(a: Point, b: Point, c: Point, p: real, q: real, r: real, t: real)
    requires p == b.x - a.x && q == c.y - a.y && r == c.x - a.x && t == b.y - a.y
    ensures Turn(a, b, c) == p * q - r * t
  {}

  lemma SquareTurns(x: real, y: real, half: real, a: Point, b: Point, c: Point, d: Point, s: real)
    requires half > 0.0 && s == 4.0 * half * half
    requires a == Point(x - half, y - half) && b == Point(x + half, y - half) && c == Point(x + half, y + half)
      && d == Point(x - half, y + half)
    ensures Turn(a, b, c) == s && Turn(b, c, d) == s && Turn(c, d, a) == s && Turn(d, a, b) == s && s > 0.0
  {
    var e := 2.0 * half;
    TurnOf(a, b, c, e, e, e, 0.0);
    TurnOf(b, c, d, 0.0, e, -e, e);
    TurnOf(c, d, a, -e, -e, -e, 0.0);
    TurnOf(d, a, b, 0.0, -e, e, -e);
    assert e * e == s;
  }

  lemma TurnSign(h: Homography, a: Point, b: Point, c: Point)
    requires h.Det() != 0.0 && Turn(a, b, c) > 0.0
    requires var i, j, k := h.W(a.x, a.y), h.W(b.x, b.y), h.W(c.x, c.y);
        (i > 0.0 && j > 0.0 && k > 0.0) || (i < 0.0 && j < 0.0 && k < 0.0)
    ensures var t := Turn(h.Map(a.x, a.y), h.Map(b.x, b.y), h.Map(c.x, c.y));
        if (h.Det() > 0.0) == (h.W(a.x, a.y) > 0.0) then t > 0.0 else t < 0.0
  {
    hide *;
    var i, j, k := h.W(a.x, a.y), h.W(b.x, b.y), h.W(c.x, c.y);
    var t := Turn(h.Map(a.x, a.y), h.Map(b.x, b.y), h.Map(c.x, c.y));
    MappedTurn(h, a, b, c, i, j, k, t, h.Det(), Turn(a, b, c));
    SignOfProduct(i, j, k, t, h.Det(), Turn(a, b, c));
  }

  /** A drop on one side of the horizon of a regular map is strictly convex; it turns as the map does. */
  lemma QuadIsStrict(h: Homography, x: real, y: real, half: real)
    requires half > 0.0 && h.Det() != 0.0 && OneSided(h, x, y, half)
    ensures StrictQuad((h.Det() > 0.0) == (h.W(x - half, y - half) > 0.0), Quad(h, x, y, half))
  {
    var a, b, c, d := Point(x - half, y - half), Point(x + half, y - half), Point(x + half, y + half),
        Point(x - half, y + half);
    SquareTurns(x, y, half, a, b, c, d, 4.0 * half * half);
    hide Turn, Homography.Det, Homography.W, Homography.Map;
    assert Turn(a, b, c) > 0.0;
    assert (h.W(a.x, a.y) > 0.0 && h.W(b.x, b.y) > 0.0 && h.W(c.x, c.y) > 0.0)
      || (h.W(a.x, a.y) < 0.0 && h.W(b.x, b.y) < 0.0 && h.W(c.x, c.y) < 0.0);
    TurnSign(h, a, b, c);
    TurnSign(h, b, c, d);
    TurnSign(h, c, d, a);
    TurnSign(h, d, a, b);
  }

  /** Whatever the regular map, the band loops deposit exactly the area of the mapped drop. */
  lemma MappedDropConserved(h: Homography, x: real, y: real, half: real)
    requires half > 0.0 && h.Det() != 0.0 && OneSided(h, x, y, half)
    ensures var quad := Quad(h, x, y, half);
        var u, v := FirstPixel(true, quad), FirstPixel(false, quad);
        GridOverlaps(quad, u, LastPixel(true, quad) - u + 1, v, LastPixel(false, quad) - v + 1) == Area(quad)
  {
    var ccw := (h.Det() > 0.0) == (h.W(x - half, y - half) > 0.0);
    QuadIsStrict(h, x, y, half);
    QuadShaped(ccw, Quad(h, x, y, half));
    BoxConservation(ccw, Quad(h, x, y, half));
  }

  lemma QuadArea(q: seq<Point>)
    requires |q| == 4
    ensures Area2(q) == Turn(q[0], q[1], q[2]) + Turn(q[2], q[3], q[0])
  {
    var a, b, c, d := q[0], q[1], q[2], q[3];
    FourEdges(q, a, b, c, d);
    TwoTurns(a, b, c, d);
  }

  lemma FourEdges(q: seq<Point>, a: Point, b: Point, c: Point, d: Point)
    requires q == [a, b, c, d]
    ensures Area2(q) == Cross.Of(d, a) + (Cross.Of(a, b) + (Cross.Of(b, c) + Cross.Of(c, d)))
  {
    hide Weight.Of;
    var p := q[1..];
    assert p == [b, c, d];
    var r := p[1..];
    assert r == [c, d];
    var s := r[1..];
    assert s == [d] && s[1..] == [];
    assert ChainSum(Cross, c, s) == Cross.Of(c, d);
    assert ChainSum(Cross, b, r) == Cross.Of(b, c) + Cross.Of(c, d);
    assert ChainSum(Cross, a, p) == Cross.Of(a, b) + (Cross.Of(b, c) + Cross.Of(c, d));
  }

  lemma TwoTurns(a: Point, b: Point, c: Point, d: Point)
    ensures Cross.Of(d, a) + (Cross.Of(a, b) + (Cross.Of(b, c) + Cross.Of(c, d))) == Turn(a, b, c) + Turn(c, d, a)
  {}

  lemma AffineDenominator(h: Homography, x: real, y: real)
    requires h.IsAffine()
    ensures h.W(x, y) == 1.0
  {
    SameProduct(h.m6, 0.0, x);
    SameProduct(h.m7, 0.0, y);
  }

  /** Under an affine map every drop has the area pixfrac squared times the map's Jacobian. */
  lemma AffineDropArea(h: Homography, x: real, y: real, half: real)
    requires half > 0.0 && h.IsAffine() && h.Det() != 0.0
    ensures OneSided(h, x, y, half) && Area(Quad(h, x, y, half)) == 4.0 * half * half * Abs(h.Det())
  {
    hide *;
    AffineOneSided(h, x, y, half);
    QuadIs(h, x, y, half);
    AffineDenominator(h, x - half, y - half);
    AffineDenominator(h, x + half, y - half);
    AffineDenominator(h, x + half, y + half);
    AffineDenominator(h, x - half, y + half);
    var s, q := 4.0 * half * half, Quad(h, x, y, half);
    MappedArea(h, x, y, half, Point(x - half, y - half), Point(x + half, y - half), Point(x + half, y + half),
               Point(x - half, y + half), q, s);
    SameProduct(s, 4.0 * half * half, Abs(h.Det()));
  }

  /** A drop whose corners all have denominator 1. */
  lemma MappedArea(h: Homography, x: real, y: real, half: real, a: Point, b: Point, c: Point, d: Point,
                   q: seq<Point>, s: real)
    requires half > 0.0 && s == 4.0 * half * half
    requires a == Point(x - half, y - half) && b == Point(x + half, y - half)
    requires c == Point(x + half, y + half) && d == Point(x - half, y + half)
    requires h.W(a.x, a.y) == 1.0 && h.W(b.x, b.y) == 1.0 && h.W(c.x, c.y) == 1.0 && h.W(d.x, d.y) == 1.0
    requires |q| == 4 && q[0] == h.Map(a.x, a.y) && q[1] == h.Map(b.x, b.y)
    requires q[2] == h.Map(c.x, c.y) && q[3] == h.Map(d.x, d.y)
    ensures Area(q) == s * Abs(h.Det())
  {
    hide *;
    SquareTurns(x, y, half, a, b, c, d, s);
    var t, u := Turn(q[0], q[1], q[2]), Turn(q[2], q[3], q[0]);
    MappedTurn(h, a, b, c, 1.0, 1.0, 1.0, t, h.Det(), s);
    MappedTurn(h, c, d, a, 1.0, 1.0, 1.0, u, h.Det(), s);
    QuadArea(q);
    HalfOfTwice(h.Det(), s, Area2(q));
    AreaIs(q);
  }

  lemma AffineOneSided(h: Homography, x: real, y: real, half: real)
    requires h.IsAffine()
    ensures OneSided(h, x, y, half)
  {
    AffineDenominator(h, x - half, y - half);
    AffineDenominator(h, x + half, y - half);
    AffineDenominator(h, x + half, y + half);
    AffineDenominator(h, x - half, y + half);
    hide Homography.W;
  }

  lemma QuadIs(h: Homography, x: real, y: real, half: real)
    requires OneSided(h, x, y, half)
    ensures var q := Quad(h, x, y, half);
      && |q| == 4 && h.W(x - half, y - half) != 0.0 && h.W(x + half, y - half) != 0.0
      && h.W(x + half, y + half) != 0.0 && h.W(x - half, y + half) != 0.0
      && q[0] == h.Map(x - half, y - half) && q[1] == h.Map(x + half, y - half)
      && q[2] == h.Map(x + half, y + half) && q[3] == h.Map(x - half, y + half)
  {
    hide Homography.W, Homography.Map;
  }

  lemma AreaIs(q: seq<Point>)
    ensures Area(q) == Abs(Area2(q)) * 0.5
  {
    hide Area2, Abs;
  }

  lemma HalfOfTwice(d: real, s: real, t: real)
    requires t == d * s + d * s && s > 0.0
    ensures Abs(t) * 0.5 == s * Abs(d)
  {
    if d < 0.0 {
      ProductSign(d, s);
    }
  }
}
