/**
 A corner of a convex polygon that lies strictly inside an output pixel puts some of the polygon's area on the
 pixel (QuadPixelOverlap in native/src/DrizzleKernel.cpp).
 */
module CornerArea {
  import opened PolygonClip
  import opened ConvexClip
  import opened DrizzleDrop

  predicate Strictly(h: HalfPlane, p: Point) {
    if h.above then h.U(p) > h.bound else h.U(p) < h.bound
  }

  /** Strictly inside, the cut of an edge that leaves the half-plane is a true part of the edge from the inner end. */
  lemma CutRatio(h: HalfPlane, inner: Point, outer: Point, m: Point) returns (t: real)
    requires Strictly(h, inner) && !h.Keep(outer) && m == h.Intersect(outer, inner)
    ensures t > 0.0 && Divides(inner, outer, t, m)
  {
    IntersectSymmetric(h, inner, outer);
    t := IntersectDivides(h, inner, outer);
    assert h.OnBorder(m) by { IntersectOnBorder(h, outer, inner); }
    assert t != 0.0;
  }

  /** m is t of the leg from v to p away from v. */
  predicate OnLeg(v: Point, p: Point, t: real, m: Point) {
    m.x - v.x == t * (p.x - v.x) && m.y - v.y == t * (p.y - v.y)
  }

  lemma TurnScaled(a: Point, b: Point, c: Point, s: real, p: Point, t: real, n: Point)
    requires OnLeg(b, a, s, p) && OnLeg(b, c, t, n)
    ensures Turn(p, b, n) == s * t * Turn(a, b, c)
  {
    TurnAbout(a, b, c);
    TurnAbout(p, b, n);
    Scaled(s, t, a.x - b.x, a.y - b.y, c.x - b.x, c.y - b.y);
  }

  /** The turn in terms of the two legs from the corner. */
  lemma TurnAbout(a: Point, b: Point, c: Point)
    ensures Turn(a, b, c) == (c.x - b.x) * (a.y - b.y) - (c.y - b.y) * (a.x - b.x)
  {}

  lemma Scaled(s: real, t: real, ax: real, ay: real, cx: real, cy: real)
    ensures t * cx * (s * ay) - t * cy * (s * ax) == s * t * (cx * ay - cy * ax)
  {}

  lemma PositiveProduct(s: real, t: real, w: real)
    requires s > 0.0 && t > 0.0 && w > 0.0
    ensures s * t * w > 0.0
  {
    assert s * t > 0.0;
  }

  lemma SideScaled(ccw: bool, a: Point, b: Point, c: Point, s: real, p: Point, t: real, n: Point)
    requires OnLeg(b, a, s, p) && OnLeg(b, c, t, n) && s > 0.0 && t > 0.0 && Side(ccw, a, b, c) > 0.0
    ensures Side(ccw, p, b, n) > 0.0
  {
    hide OnLeg, Turn;
    TurnScaled(a, b, c, s, p, t, n);
    var whole := Turn(a, b, c);
    if ccw {
      PositiveProduct(s, t, whole);
    } else {
      PositiveProduct(s, t, -whole);
      assert s * t * -whole == -(s * t * whole);
    }
  }

  /** The corner stays when the legs are cut: what is left of them still spans something. */
  lemma CornerTurns(ccw: bool, h: HalfPlane, p: Point, v: Point, n: Point)
    requires Strictly(h, v) && Side(ccw, p, v, n) > 0.0
    ensures Side(ccw, Near(h, p, v), v, Near(h, n, v)) > 0.0
  {
    hide *;
    var s := LegRatio(h, p, v);
    var t := LegRatio(h, n, v);
    SideScaled(ccw, p, v, n, s, Near(h, p, v), t, Near(h, n, v));
  }

  /** The end of a leg inside the half-plane. */
  function Near(h: HalfPlane, outer: Point, v: Point): Point
    requires Strictly(h, v)
  {
    if h.Keep(outer) then outer else h.Intersect(outer, v)
  }

  lemma LegRatio(h: HalfPlane, outer: Point, v: Point) returns (t: real)
    requires Strictly(h, v)
    ensures t > 0.0 && OnLeg(v, outer, t, Near(h, outer, v))
  {
    if h.Keep(outer) {
      t := 1.0;
    } else {
      t := CutRatio(h, v, outer, h.Intersect(outer, v));
    }
  }

  /** A polygon with corner p, v, n in it. */
  function Cornered(front: seq<Point>, p: Point, v: Point, n: Point, back: seq<Point>): seq<Point> {
    front + [p, v, n] + back
  }

  lemma {:induction false} ClipChainConcat(h: HalfPlane, p: Point, a: seq<Point>, b: seq<Point>)
    ensures ClipChain(h, p, a + b) == ClipChain(h, p, a) + ClipChain(h, if a == [] then p else a[|a| - 1], b)
    decreases |a|
  {
    hide ClipVertex;
    if a == [] {
      assert a + b == b;
    } else {
      assert (a + b)[1..] == a[1..] + b;
      ClipChainConcat(h, a[0], a[1..], b);
    }
  }

  lemma ClipTriple(h: HalfPlane, e: Point, p: Point, v: Point, n: Point)
    ensures ClipChain(h, e, [p, v, n]) == ClipVertex(h, e, p) + ClipVertex(h, p, v) + ClipVertex(h, v, n)
  {
    hide ClipVertex;
    assert [p, v, n][1..] == [v, n] && [v, n][1..] == [n] && [n][1..] == [];
    assert ClipChain(h, n, []) == [];
    assert ClipChain(h, v, [n]) == ClipVertex(h, v, n);
    assert ClipChain(h, p, [v, n]) == ClipVertex(h, p, v) + ClipVertex(h, v, n);
  }

  /** What a clip writes for the three vertices of a corner. */
  lemma CornerWritten(h: HalfPlane, e: Point, p: Point, v: Point, n: Point) returns (front: seq<Point>)
    requires Strictly(h, v)
    ensures ClipVertex(h, e, p) + ClipVertex(h, p, v) + ClipVertex(h, v, n) == front + [Near(h, p, v), v, Near(h, n, v)]
  {
    if !h.Keep(n) {
      IntersectSymmetric(h, v, n);
    }
    hide HalfPlane.Intersect;
    var w := ClipVertex(h, e, p);
    if h.Keep(p) {
      front := w[..|w| - 1];
      assert w == front + [p];
    } else {
      front := w;
    }
    assert ClipVertex(h, v, n) == [Near(h, n, v)];
  }

  /** Clipping keeps the corner, with its legs cut. */
  lemma ClipKeepsCorner(h: HalfPlane, front: seq<Point>, p: Point, v: Point, n: Point, back: seq<Point>)
      returns (front': seq<Point>, back': seq<Point>)
    requires Strictly(h, v)
    ensures Clip(h, Cornered(front, p, v, n, back)) == Cornered(front', Near(h, p, v), v, Near(h, n, v), back')
  {
    hide ClipVertex, Near;
    var polygon := Cornered(front, p, v, n, back);
    var last := polygon[|polygon| - 1];
    var e := if front == [] then last else front[|front| - 1];
    ClipChainConcat(h, last, front + [p, v, n], back);
    ClipChainConcat(h, last, front, [p, v, n]);
    ClipTriple(h, e, p, v, n);
    var written := CornerWritten(h, e, p, v, n);
    front' := ClipChain(h, last, front) + written;
    back' := ClipChain(h, n, back);
  }

  // ----- a corner gives area -----

  /** The fan over part of a convex polygon holds the triangle of its ends. */
  lemma {:induction false} FanAtLeast(ccw: bool, polygon: seq<Point>, i: nat, k: nat)
    requires Convex(ccw, polygon) && 0 < i <= k < |polygon|
    ensures Side(ccw, polygon[0], polygon[i], polygon[k]) <= FanPart(ccw, polygon, i, k)
    decreases k
  {
    if i < k {
      FanAtLeast(ccw, polygon, i, k - 1);
      Triple(ccw, polygon, i, k - 1, k);
      FourTurns(polygon[0], polygon[i], polygon[k - 1], polygon[k]);
    } else {
      TurnDegenerate(polygon[0], polygon[i]);
    }
  }

  /** The triangles from the first vertex to the edges from i to k, with the sign of the orientation. */
  function FanPart(ccw: bool, polygon: seq<Point>, i: nat, k: nat): real
    requires i <= k < |polygon|
  {
    if k == i then 0.0 else FanPart(ccw, polygon, i, k - 1) + Side(ccw, polygon[0], polygon[k - 1], polygon[k])
  }

  lemma FourTurns(o: Point, a: Point, b: Point, c: Point)
    ensures Turn(o, a, c) == Turn(o, a, b) + Turn(o, b, c) - Turn(a, b, c)
  {}

  lemma {:induction false} FanSplits(ccw: bool, polygon: seq<Point>, i: nat, j: nat, k: nat)
    requires i <= j <= k < |polygon|
    ensures FanPart(ccw, polygon, i, k) == FanPart(ccw, polygon, i, j) + FanPart(ccw, polygon, j, k)
  {
    hide Side;
    if j < k {
      FanSplits(ccw, polygon, i, j, k - 1);
    }
  }

  lemma {:induction false} FanPartSign(ccw: bool, polygon: seq<Point>, i: nat, k: nat)
    requires Convex(ccw, polygon) && i <= k < |polygon|
    ensures FanPart(ccw, polygon, i, k) >= 0.0
  {
    if i < k {
      FanPartSign(ccw, polygon, i, k - 1);
      Triple(ccw, polygon, 0, k - 1, k);
    }
  }

  lemma {:induction false} FanIsPart(ccw: bool, polygon: seq<Point>, i: nat)
    requires i < |polygon|
    ensures FanSum(polygon[0], polygon[i], polygon[i + 1..]) == Signed(ccw, FanPart(ccw, polygon, i, |polygon| - 1))
    decreases |polygon| - i
  {
    hide Turn;
    if i + 1 < |polygon| {
      FanIsPart(ccw, polygon, i + 1);
      assert polygon[i + 1..][1..] == polygon[i + 2..];
      FanSplits(ccw, polygon, i, i + 1, |polygon| - 1);
      assert FanPart(ccw, polygon, i, i + 1) == Side(ccw, polygon[0], polygon[i], polygon[i + 1]);
    } else {
      assert polygon[i + 1..] == [];
    }
  }

  function Signed(ccw: bool, area: real): real {
    if ccw then area else -area
  }

  lemma AreaIsFan(ccw: bool, polygon: seq<Point>)
    requires polygon != []
    ensures Signed(ccw, Area2(polygon)) == FanPart(ccw, polygon, 0, |polygon| - 1)
  {
    hide Turn, Weight.Of;
    var n := |polygon| - 1;
    FanChain(polygon[0], polygon[n], polygon);
    TurnDegenerate(polygon[0], polygon[n]);
    assert FanSum(polygon[0], polygon[n], polygon) == FanSum(polygon[0], polygon[0], polygon[1..]);
    FanIsPart(ccw, polygon, 0);
  }

  lemma FourSides(ccw: bool, o: Point, a: Point, b: Point, c: Point)
    ensures Side(ccw, a, b, c) == Side(ccw, o, a, b) + Side(ccw, o, b, c) - Side(ccw, o, a, c)
  {
    FourTurns(o, a, b, c);
  }

  /** A convex polygon has at least the area of any triangle of its vertices. */
  lemma TriangleInside(ccw: bool, polygon: seq<Point>, i: nat, j: nat, k: nat)
    requires Convex(ccw, polygon) && i < j < k < |polygon|
    ensures Side(ccw, polygon[i], polygon[j], polygon[k]) <= Signed(ccw, Area2(polygon))
  {
    hide *;
    AreaIsFan(ccw, polygon);
    var n := |polygon| - 1;
    FanSplits(ccw, polygon, 0, i, n);
    FanSplits(ccw, polygon, i, j, n);
    FanSplits(ccw, polygon, j, k, n);
    FanPartSign(ccw, polygon, 0, i);
    FanPartSign(ccw, polygon, i, j);
    FanPartSign(ccw, polygon, k, n);
    FanAtLeast(ccw, polygon, j, k);
    FourSides(ccw, polygon[0], polygon[i], polygon[j], polygon[k]);
    Triple(ccw, polygon, 0, i, k);
    if i > 0 {
      FanAtLeast(ccw, polygon, i, j);
    } else {
      NoSide(ccw, polygon[0], polygon[j]);
      NoSide(ccw, polygon[0], polygon[k]);
    }
  }

  lemma NoSide(ccw: bool, o: Point, a: Point)
    ensures Side(ccw, o, o, a) == 0.0
  {}

  /** A convex polygon with a corner strictly inside a pixel leaves some area on it. */
  lemma CornerOverlap(ccw: bool, front: seq<Point>, p: Point, v: Point, n: Point, back: seq<Point>, px: int, py: int)
    requires Convex(ccw, Cornered(front, p, v, n, back)) && Side(ccw, p, v, n) > 0.0
    requires px as real - 0.5 < v.x < px as real + 0.5 && py as real - 0.5 < v.y < py as real + 0.5
    ensures Overlap(Cornered(front, p, v, n, back), px, py) > 0.0
  {
    hide Convex, Clip, Near, Area2;
    var h1, h2, h3, h4 := Low(true, px), High(true, px), Low(false, py), High(false, py);
    var f1, b1 := ClipKeepsCorner(h1, front, p, v, n, back);
    ClipShaped(Turning(ccw), h1, Cornered(front, p, v, n, back));
    CornerTurns(ccw, h1, p, v, n);
    var p1, n1 := Near(h1, p, v), Near(h1, n, v);
    var f2, b2 := ClipKeepsCorner(h2, f1, p1, v, n1, b1);
    ClipShaped(Turning(ccw), h2, Cornered(f1, p1, v, n1, b1));
    CornerTurns(ccw, h2, p1, v, n1);
    var p2, n2 := Near(h2, p1, v), Near(h2, n1, v);
    var f3, b3 := ClipKeepsCorner(h3, f2, p2, v, n2, b2);
    ClipShaped(Turning(ccw), h3, Cornered(f2, p2, v, n2, b2));
    CornerTurns(ccw, h3, p2, v, n2);
    var p3, n3 := Near(h3, p2, v), Near(h3, n2, v);
    var f4, b4 := ClipKeepsCorner(h4, f3, p3, v, n3, b3);
    ClipShaped(Turning(ccw), h4, Cornered(f3, p3, v, n3, b3));
    CornerTurns(ccw, h4, p3, v, n3);
    var p4, n4 := Near(h4, p3, v), Near(h4, n3, v);
    CornerHasArea(ccw, f4, p4, v, n4, b4);
  }

  lemma CornerHasArea(ccw: bool, front: seq<Point>, p: Point, v: Point, n: Point, back: seq<Point>)
    requires Convex(ccw, Cornered(front, p, v, n, back)) && Side(ccw, p, v, n) > 0.0
    ensures Area2(Cornered(front, p, v, n, back)) != 0.0
  {
    hide Area2;
    TriangleInside(ccw, Cornered(front, p, v, n, back), |front|, |front| + 1, |front| + 2);
  }

  // ----- any corner of a quadrilateral -----

  /** The same closed polygon listed from another vertex on. */
  predicate Rotation(a: seq<Point>, k: nat, b: seq<Point>) {
    k <= |a| && b == a[k..] + a[..k]
  }

  lemma ClipRotates(h: HalfPlane, a: seq<Point>, k: nat, b: seq<Point>) returns (l: nat)
    requires Rotation(a, k, b)
    ensures Rotation(Clip(h, a), l, Clip(h, b))
  {
    var front, back := a[..k], a[k..];
    assert a == front + back;
    if front == [] || back == [] {
      assert a == b;
      l := 0;
    } else {
      var p, q := front[k - 1], back[|back| - 1];
      ClipChainConcat(h, q, front, back);
      ClipChainConcat(h, p, back, front);
      l := |ClipChain(h, q, front)|;
    }
  }

  lemma AreaRotates(a: seq<Point>, k: nat, b: seq<Point>)
    requires Rotation(a, k, b)
    ensures |a| == |b| && Area2(a) == Area2(b)
  {
    var front, back := a[..k], a[k..];
    assert a == front + back;
    if front == [] || back == [] {
      assert a == b;
    } else {
      ChainSumConcat(Cross, back[|back| - 1], front, back);
      ChainSumConcat(Cross, front[k - 1], back, front);
    }
  }

  /** The overlap with a pixel does not depend on the vertex the polygon starts with. */
  lemma OverlapRotates(a: seq<Point>, k: nat, b: seq<Point>, px: int, py: int)
    requires Rotation(a, k, b)
    ensures Overlap(a, px, py) == Overlap(b, px, py)
  {
    hide Clip, Area2, Rotation, Low, High;
    var a1, b1 := Clip(Low(true, px), a), Clip(Low(true, px), b);
    var a2, b2 := Clip(High(true, px), a1), Clip(High(true, px), b1);
    var a3, b3 := Clip(Low(false, py), a2), Clip(Low(false, py), b2);
    var a4, b4 := Clip(High(false, py), a3), Clip(High(false, py), b3);
    var k1 := ClipRotates(Low(true, px), a, k, b);
    var k2 := ClipRotates(High(true, px), a1, k1, b1);
    var k3 := ClipRotates(Low(false, py), a2, k2, b2);
    var k4 := ClipRotates(High(false, py), a3, k3, b3);
    AreaRotates(a1, k1, b1);
    AreaRotates(a2, k2, b2);
    AreaRotates(a3, k3, b3);
    AreaRotates(a4, k4, b4);
  }

  /** A strictly convex quadrilateral leaves some area on a pixel that has one of its corners strictly inside. */
  lemma QuadCornerOverlap(ccw: bool, q: seq<Point>, i: nat, px: int, py: int)
    requires StrictQuad(ccw, q) && i < 4
    requires px as real - 0.5 < q[i].x < px as real + 0.5 && py as real - 0.5 < q[i].y < py as real + 0.5
    ensures Overlap(q, px, py) > 0.0
  {
    var k := if i == 0 then 3 else i - 1;
    var turned := q[k..] + q[..k];
    TurnedQuad(ccw, q, k);
    OverlapRotates(q, k, turned, px, py);
    QuadShaped(ccw, turned);
    hide Convex, Side, Overlap;
    assert turned == Cornered([], turned[0], turned[1], turned[2], [turned[3]]);
    CornerOverlap(ccw, [], turned[0], turned[1], turned[2], [turned[3]], px, py);
  }

  lemma TurnedQuad(ccw: bool, q: seq<Point>, k: nat)
    requires StrictQuad(ccw, q) && k < 4
    ensures StrictQuad(ccw, q[k..] + q[..k])
  {
    hide Side;
  }
}
