/**
 Sutherland-Hodgman clipping by axis-parallel half-planes (ClipEdge and PolygonArea in
 native/src/DrizzleKernel.cpp) and the signed-area calculus of clipped closed polygons.
 */
module PolygonClip {

  datatype Point = Point(x: real, y: real)

  /** The half-plane where the x (vertical border) or y coordinate is at least, or at most, the bound. */
  datatype HalfPlane = HalfPlane(vertical: bool, bound: real, above: bool) {

    /** The coordinate across the border. */
    function U(p: Point): real { if vertical then p.x else p.y }

    /** The coordinate along the border. */
    function V(p: Point): real { if vertical then p.y else p.x }

    function Make(u: real, v: real): Point { if vertical then Point(u, v) else Point(v, u) }

    predicate Keep(p: Point) { if above then U(p) >= bound else U(p) <= bound }

    predicate OnBorder(p: Point) { U(p) == bound }

    function Opposite(): HalfPlane { HalfPlane(vertical, bound, !above) }

    /** lerpX and lerpY: where the segment from p to q meets the border. */
    function Intersect(p: Point, q: Point): Point
      requires Keep(p) != Keep(q)
    {
      var t := (bound - U(p)) / (U(q) - U(p));
      Make(bound, V(p) + t * (V(q) - V(p)))
    }
  }

  // ----- clipping -----

  /** What ClipEdge writes for one vertex and its predecessor. */
  function ClipVertex(h: HalfPlane, previous: Point, current: Point): seq<Point> {
    if h.Keep(current) then
      if !h.Keep(previous) then [h.Intersect(previous, current), current] else [current]
    else if h.Keep(previous) then [h.Intersect(previous, current)]
    else []
  }

  /** The clip of an open chain that continues from `previous`. */
  function ClipChain(h: HalfPlane, previous: Point, chain: seq<Point>): seq<Point>
    decreases |chain|
  {
    if chain == [] then [] else ClipVertex(h, previous, chain[0]) + ClipChain(h, chain[0], chain[1..])
  }

  /** The clip of a closed polygon. */
  function Clip(h: HalfPlane, polygon: seq<Point>): seq<Point> {
    if polygon == [] then [] else ClipChain(h, polygon[|polygon| - 1], polygon)
  }

  // ----- edge weights and their sums -----

  /**
   A number given to every directed edge: the cross product; the cross product about a point of a border;
   or the weight of the part of the edge inside a half-plane.
   */
  datatype Weight = Cross | About(border: HalfPlane) | Within(inner: Weight, part: HalfPlane) {

    function Of(p: Point, q: Point): real {
      match this
      case Cross => p.x * q.y - q.x * p.y
      case About(h) =>
        var c := (h.U(p) - h.bound) * h.V(q) - (h.U(q) - h.bound) * h.V(p);
        if h.vertical then c else -c
      case Within(w, h) =>
        if h.Keep(p) && h.Keep(q) then w.Of(p, q)
        else if h.Keep(q) then w.Of(h.Intersect(p, q), q)
        else if h.Keep(p) then w.Of(p, h.Intersect(p, q))
        else 0.0
    }
  }

  function ChainSum(w: Weight, previous: Point, chain: seq<Point>): real
    decreases |chain|
  {
    if chain == [] then 0.0 else w.Of(previous, chain[0]) + ChainSum(w, chain[0], chain[1..])
  }

  function CycleSum(w: Weight, polygon: seq<Point>): real {
    if polygon == [] then 0.0 else ChainSum(w, polygon[|polygon| - 1], polygon)
  }

  /** Twice the signed area (shoelace). */
  function Area2(polygon: seq<Point>): real {
    CycleSum(Cross, polygon)
  }

  lemma {:induction false} ChainSumConcat(w: Weight, p: Point, a: seq<Point>, b: seq<Point>)
    ensures ChainSum(w, p, a + b) == ChainSum(w, p, a) + ChainSum(w, if a == [] then p else a[|a| - 1], b)
    decreases |a|
  {
    if a == [] {
      assert a + b == b;
    } else {
      ChainSumConcat(w, a[0], a[1..], b);
      assert (a + b)[1..] == a[1..] + b;
    }
  }

  // ----- the sum over a clipped polygon is the sum of the clipped edges -----

  /** Where the clip's last written point stands after chain vertex p. */
  predicate Follows(h: HalfPlane, p: Point, emitted: Point) {
    if h.Keep(p) then emitted == p else h.OnBorder(emitted)
  }

  ghost predicate VanishesOn(w: Weight, h: HalfPlane) {
    forall a, b :: h.OnBorder(a) && h.OnBorder(b) ==> w.Of(a, b) == 0.0
  }

  lemma IntersectOnBorder(h: HalfPlane, p: Point, q: Point)
    requires h.Keep(p) != h.Keep(q)
    ensures h.OnBorder(h.Intersect(p, q)) && h.Keep(h.Intersect(p, q))
  {}

  /** One vertex: the links along the border weigh nothing. */
  lemma VertexSum(h: HalfPlane, w: Weight, p: Point, emitted: Point, q: Point)
    requires VanishesOn(w, h) && Follows(h, p, emitted)
    ensures ChainSum(w, emitted, ClipVertex(h, p, q)) == Within(w, h).Of(p, q)
    ensures ClipVertex(h, p, q) != [] ==> Follows(h, q, ClipVertex(h, p, q)[|ClipVertex(h, p, q)| - 1])
    ensures ClipVertex(h, p, q) == [] ==> Follows(h, q, emitted)
  {
    var out := ClipVertex(h, p, q);
    if |out| == 2 {
      IntersectOnBorder(h, p, q);
      assert out[1..] == [q] && [q][1..] == [];
      assert w.Of(emitted, out[0]) == 0.0;
      assert ChainSum(w, out[0], [q]) == w.Of(out[0], q);
    } else if |out| == 1 {
      assert out[1..] == [];
    }
  }

  lemma {:induction false} ChainClipSum(h: HalfPlane, w: Weight, p: Point, emitted: Point, chain: seq<Point>)
    requires VanishesOn(w, h) && Follows(h, p, emitted)
    ensures ChainSum(w, emitted, ClipChain(h, p, chain)) == ChainSum(Within(w, h), p, chain)
    decreases |chain|
  {
    if chain != [] {
      var q, out := chain[0], ClipVertex(h, p, chain[0]);
      VertexSum(h, w, p, emitted, q);
      var last := if out == [] then emitted else out[|out| - 1];
      ChainClipSum(h, w, q, last, chain[1..]);
      ChainSumConcat(w, emitted, out, ClipChain(h, q, chain[1..]));
    }
  }

  /** The last point written for a chain follows the chain's last vertex. */
  lemma {:induction false} LastWritten(h: HalfPlane, p: Point, emitted: Point, chain: seq<Point>)
    requires Follows(h, p, emitted) && chain != []
    ensures var out := ClipChain(h, p, chain);
        Follows(h, chain[|chain| - 1], if out == [] then emitted else out[|out| - 1])
    decreases |chain|
  {
    var q, out := chain[0], ClipVertex(h, p, chain[0]);
    if h.Keep(p) != h.Keep(q) {
      IntersectOnBorder(h, p, q);
    }
    var last := if out == [] then emitted else out[|out| - 1];
    assert Follows(h, q, last);
    if |chain| > 1 {
      LastWritten(h, q, last, chain[1..]);
    } else {
      assert ClipChain(h, q, chain[1..]) == [];
    }
  }

  /** A weight that vanishes along the border sums over the clip to its parts inside the half-plane. */
  lemma ClipSum(h: HalfPlane, w: Weight, polygon: seq<Point>)
    requires VanishesOn(w, h)
    ensures CycleSum(w, Clip(h, polygon)) == CycleSum(Within(w, h), polygon)
  {
    if polygon != [] {
      var last := polygon[|polygon| - 1];
      var emitted := if h.Keep(last) then last else h.Make(h.bound, 0.0);
      LastWritten(h, last, emitted, polygon);
      var out := Clip(h, polygon);
      ChainClipSum(h, w, last, if out == [] then emitted else out[|out| - 1], polygon);
    }
  }

  // ----- signed areas of clips -----

  /** The cross product about a border point differs from the plain one by a telescoping term. */
  lemma AboutIsShifted(h: HalfPlane, p: Point, q: Point)
    ensures About(h).Of(p, q) == Cross.Of(p, q) - (if h.vertical then h.bound else -h.bound) * (h.V(q) - h.V(p))
  {}

  lemma {:induction false} AboutChain(h: HalfPlane, p: Point, chain: seq<Point>)
    requires chain != []
    ensures ChainSum(About(h), p, chain)
        == ChainSum(Cross, p, chain) - (if h.vertical then h.bound else -h.bound) * (h.V(chain[|chain| - 1]) - h.V(p))
    decreases |chain|
  {
    AboutIsShifted(h, p, chain[0]);
    if |chain| > 1 {
      AboutChain(h, chain[0], chain[1..]);
      var k := if h.vertical then h.bound else -h.bound;
      Telescope(k, h.V(p), h.V(chain[0]), h.V(chain[|chain| - 1]));
    } else {
      assert chain[1..] == [];
    }
  }

  lemma Telescope(k: real, a: real, b: real, c: real)
    ensures k * (b - a) + k * (c - b) == k * (c - a)
  {}

  lemma AreaAbout(h: HalfPlane, polygon: seq<Point>)
    ensures CycleSum(About(h), polygon) == Area2(polygon)
  {
    if polygon != [] {
      AboutChain(h, polygon[|polygon| - 1], polygon);
    }
  }

  /** The part of an edge inside the half-plane, as a number that adds up to the area of the clip. */
  function Part(h: HalfPlane): Weight {
    Within(About(h), h)
  }

  lemma AreaOfClip(h: HalfPlane, polygon: seq<Point>)
    ensures Area2(Clip(h, polygon)) == CycleSum(Part(h), polygon)
  {
    AreaAbout(h, Clip(h, polygon));
    ClipSum(h, About(h), polygon);
  }

  /** (u, v) lies on the line through (u1, v1) and (u2, v2). */
  predicate OnLine(u1: real, v1: real, u2: real, v2: real, u: real, v: real) {
    (v - v1) * (u2 - u1) == (u - u1) * (v2 - v1)
  }

  lemma IntersectOnLine(h: HalfPlane, p: Point, q: Point)
    requires h.Keep(p) != h.Keep(q)
    ensures OnLine(h.U(p), h.V(p), h.U(q), h.V(q), h.bound, h.V(h.Intersect(p, q)))
  {
    var d, t := h.U(q) - h.U(p), (h.bound - h.U(p)) / (h.U(q) - h.U(p));
    CutOnLine(h.bound - h.U(p), d, t, h.V(q) - h.V(p));
  }

  lemma CutOnLine(n: real, d: real, t: real, e: real)
    requires d != 0.0 && t == n / d
    ensures (t * e) * d == n * e
  {
    assert t * d == n;
    assert (t * e) * d == (t * d) * e;
  }

  /** A border point on the line of an edge cuts the edge's weight into the weights of the two parts. */
  lemma CutEdge(u1: real, v1: real, u2: real, v2: real, c: real, v: real)
    requires OnLine(u1, v1, u2, v2, c, v)
    ensures ((u1 - c) * v - (c - c) * v1) + ((c - c) * v2 - (u2 - c) * v) == (u1 - c) * v2 - (u2 - c) * v1
  {
    assert (u1 - c) * v - (u2 - c) * v == -((v - v1) * (u2 - u1)) - v1 * (u2 - u1);
    assert (u1 - c) * v2 - (u2 - c) * v1 == -((c - u1) * (v2 - v1)) - v1 * (u2 - u1);
  }

  lemma CutAbout(h: HalfPlane, p: Point, i: Point, q: Point)
    requires h.OnBorder(i) && OnLine(h.U(p), h.V(p), h.U(q), h.V(q), h.bound, h.V(i))
    ensures About(h).Of(p, i) + About(h).Of(i, q) == About(h).Of(p, q)
  {
    CutEdge(h.U(p), h.V(p), h.U(q), h.V(q), h.bound, h.V(i));
  }

  lemma BorderZero(h: HalfPlane)
    ensures VanishesOn(About(h), h)
  {}

  /** Strictly on opposite sides: both parts share the cut point. */
  lemma CrossingSplits(h: HalfPlane, p: Point, q: Point)
    requires h.Keep(p) != h.Keep(q) && h.Opposite().Keep(p) != h.Opposite().Keep(q)
    ensures Part(h).Of(p, q) + Part(h.Opposite()).Of(p, q) == About(h).Of(p, q)
  {
    var i := h.Intersect(p, q);
    SameCut(h, p, q);
    IntersectOnBorder(h, p, q);
    IntersectOnLine(h, p, q);
    CutAbout(h, p, i, q);
    CrossingPart(h, p, q);
    CrossingPart(h.Opposite(), p, q);
    OtherSide(h, p, i);
    OtherSide(h, i, q);
    hide HalfPlane.Keep, HalfPlane.Intersect, Weight.Of;
    Opposites(h, p, q);
  }

  lemma SameCut(h: HalfPlane, p: Point, q: Point)
    requires h.Keep(p) != h.Keep(q) && h.Opposite().Keep(p) != h.Opposite().Keep(q)
    ensures h.Opposite().Intersect(p, q) == h.Intersect(p, q)
  {}

  /** The part of a crossing edge reaches from the cut to the end inside. */
  lemma CrossingPart(h: HalfPlane, p: Point, q: Point)
    requires h.Keep(p) != h.Keep(q)
    ensures Part(h).Of(p, q) ==
      if h.Keep(q) then About(h).Of(h.Intersect(p, q), q) else About(h).Of(p, h.Intersect(p, q))
  {
    hide HalfPlane.Keep, HalfPlane.Intersect;
  }

  lemma OtherSide(h: HalfPlane, p: Point, q: Point)
    ensures About(h.Opposite()).Of(p, q) == About(h).Of(p, q)
  {}

  lemma Opposites(h: HalfPlane, p: Point, q: Point)
    requires h.Keep(p) != h.Keep(q) && h.Opposite().Keep(p) != h.Opposite().Keep(q)
    ensures h.Opposite().Keep(q) != h.Keep(q)
  {}

  /** A part that starts and ends on the border weighs nothing. */
  lemma TouchingPart(h: HalfPlane, p: Point, q: Point)
    requires h.Keep(p) != h.Keep(q) && (if h.Keep(p) then h.OnBorder(p) else h.OnBorder(q))
    ensures Part(h).Of(p, q) == 0.0
  {
    IntersectOnBorder(h, p, q);
    BorderZero(h);
  }

  /** Every edge splits into its parts on the two sides of a border. */
  lemma EdgeSplits(h: HalfPlane, p: Point, q: Point)
    ensures Part(h).Of(p, q) + Part(h.Opposite()).Of(p, q) == About(h).Of(p, q)
  {
    var o := h.Opposite();
    assert About(o).Of(p, q) == About(h).Of(p, q);
    if h.Keep(p) != h.Keep(q) && o.Keep(p) != o.Keep(q) {
      CrossingSplits(h, p, q);
    } else if h.Keep(p) != h.Keep(q) {
      TouchingPart(h, p, q);
    } else if o.Keep(p) != o.Keep(q) {
      TouchingPart(o, p, q);
    } else if h.Keep(p) && o.Keep(p) {
      BorderZero(h);
    }
  }

  lemma {:induction false} SumSplits(a: Weight, b: Weight, c: Weight, p: Point, chain: seq<Point>)
    requires forall x, y :: a.Of(x, y) + b.Of(x, y) == c.Of(x, y)
    ensures ChainSum(a, p, chain) + ChainSum(b, p, chain) == ChainSum(c, p, chain)
    decreases |chain|
  {
    if chain != [] {
      assert a.Of(p, chain[0]) + b.Of(p, chain[0]) == c.Of(p, chain[0]);
      SumSplits(a, b, c, chain[0], chain[1..]);
    }
  }

  /** The signed areas on the two sides of a border add up to the area of the polygon, whatever its shape. */
  lemma AreaSplits(h: HalfPlane, polygon: seq<Point>)
    ensures Area2(Clip(h, polygon)) + Area2(Clip(h.Opposite(), polygon)) == Area2(polygon)
  {
    AreaOfClip(h, polygon);
    AreaOfClip(h.Opposite(), polygon);
    AreaAbout(h, polygon);
    forall x, y
      ensures Part(h).Of(x, y) + Part(h.Opposite()).Of(x, y) == About(h).Of(x, y)
    {
      EdgeSplits(h, x, y);
    }
    if polygon != [] {
      SumSplits(Part(h), Part(h.Opposite()), About(h), polygon[|polygon| - 1], polygon);
    }
  }

  // ----- nested clips -----

  /** Two parallel borders, the inner half-plane contained in the outer one. */
  predicate Nested(outer: HalfPlane, inner: HalfPlane) {
    outer.vertical == inner.vertical && outer.above && inner.above && outer.bound <= inner.bound
  }

  lemma LineUnique(u1: real, v1: real, u2: real, v2: real, u: real, v: real, w: real)
    requires u1 != u2 && OnLine(u1, v1, u2, v2, u, v) && OnLine(u1, v1, u2, v2, u, w)
    ensures v == w
  {
    assert (v - w) * (u2 - u1) == 0.0;
  }

  /** A point on the line spans the same line with the far end. */
  lemma LineFrom(u1: real, v1: real, u2: real, v2: real, m: real, n: real, u: real, v: real)
    requires u1 != u2 && m != u2 && OnLine(u1, v1, u2, v2, m, n) && OnLine(m, n, u2, v2, u, v)
    ensures OnLine(u1, v1, u2, v2, u, v)
  {
    var d, e := u2 - u1, v2 - v1;
    assert (n - v1) * d == (m - u1) * e;
    assert (v2 - n) * d == (u2 - m) * e;
    assert (v - n) * (u2 - m) == (u - m) * (v2 - n);
    Cancel(v - n, u2 - m, d, u - m, v2 - n, e);
    assert (v - v1) * d == (v - n) * d + (n - v1) * d;
  }

  lemma Cancel(a: real, b: real, d: real, c: real, f: real, e: real)
    requires a * b == c * f && f * d == b * e && b != 0.0
    ensures a * d == c * e
  {
    assert (a * d) * b == (a * b) * d == (c * f) * d == c * (f * d) == c * (b * e) == (c * e) * b;
  }

  /** The meeting point with the inner border is the same from the original end and from the outer border. */
  lemma SameIntersect(outer: HalfPlane, inner: HalfPlane, p: Point, q: Point)
    requires Nested(outer, inner) && outer.bound < inner.bound && !outer.Keep(p) && inner.Keep(q)
    ensures inner.Intersect(outer.Intersect(p, q), q) == inner.Intersect(p, q)
    ensures inner.Intersect(q, outer.Intersect(q, p)) == inner.Intersect(q, p)
  {
    SameIntersectFrom(outer, inner, p, q, outer.Intersect(p, q), inner.Intersect(outer.Intersect(p, q), q),
        inner.Intersect(p, q));
    IntersectSymmetric(outer, p, q);
    IntersectSymmetric(inner, p, q);
    IntersectSymmetric(inner, outer.Intersect(p, q), q);
  }

  lemma IntersectSymmetric(h: HalfPlane, p: Point, q: Point)
    requires h.Keep(p) != h.Keep(q)
    ensures h.Intersect(p, q) == h.Intersect(q, p)
  {
    IntersectOnLine(h, p, q);
    IntersectOnLine(h, q, p);
    LineReversed(h.U(p), h.V(p), h.U(q), h.V(q), h.bound, h.V(h.Intersect(q, p)));
    LineUnique(h.U(p), h.V(p), h.U(q), h.V(q), h.bound, h.V(h.Intersect(p, q)), h.V(h.Intersect(q, p)));
  }

  lemma LineReversed(u1: real, v1: real, u2: real, v2: real, u: real, v: real)
    requires OnLine(u2, v2, u1, v1, u, v)
    ensures OnLine(u1, v1, u2, v2, u, v)
  {
    assert (v - v1) * (u2 - u1) == (v2 - v1) * (u2 - u1) - (v - v2) * (u1 - u2);
    assert (u - u1) * (v2 - v1) == (u2 - u1) * (v2 - v1) - (u - u2) * (v1 - v2);
  }

  lemma SameIntersectFrom(outer: HalfPlane, inner: HalfPlane, p: Point, q: Point, m: Point, a: Point, b: Point)
    requires Nested(outer, inner) && outer.bound < inner.bound && !outer.Keep(p) && inner.Keep(q)
    requires m == outer.Intersect(p, q) && a == inner.Intersect(m, q) && b == inner.Intersect(p, q)
    ensures a == b
  {
    IntersectOnLine(outer, p, q);
    IntersectOnLine(inner, m, q);
    IntersectOnLine(inner, p, q);
    LineFrom(outer.U(p), outer.V(p), outer.U(q), outer.V(q), outer.bound, outer.V(m), inner.bound, outer.V(a));
    LineUnique(outer.U(p), outer.V(p), outer.U(q), outer.V(q), inner.bound, outer.V(a), outer.V(b));
  }

  lemma PartVanishesOutside(outer: HalfPlane, inner: HalfPlane)
    requires Nested(outer, inner)
    ensures VanishesOn(Part(inner), outer)
  {
    BorderZero(inner);
  }

  /** Clipping first by the containing half-plane does not change the part of an edge inside the contained one. */
  lemma NestedPart(outer: HalfPlane, inner: HalfPlane, p: Point, q: Point)
    requires Nested(outer, inner)
    ensures Within(Part(inner), outer).Of(p, q) == Part(inner).Of(p, q)
  {
    if outer.bound < inner.bound {
      if !outer.Keep(p) && inner.Keep(q) {
        SameIntersect(outer, inner, p, q);
      } else if inner.Keep(p) && !outer.Keep(q) {
        SameIntersect(outer, inner, q, p);
      }
    } else {
      assert outer == inner;
      if outer.Keep(p) != outer.Keep(q) {
        IntersectOnBorder(outer, p, q);
      }
    }
  }

  /** Nested clips have the area of the inner clip alone. */
  lemma NestedArea(outer: HalfPlane, inner: HalfPlane, polygon: seq<Point>)
    requires Nested(outer, inner)
    ensures Area2(Clip(inner, Clip(outer, polygon))) == Area2(Clip(inner, polygon))
  {
    AreaOfClip(inner, Clip(outer, polygon));
    PartVanishesOutside(outer, inner);
    ClipSum(outer, Part(inner), polygon);
    forall x, y
      ensures Within(Part(inner), outer).Of(x, y) == Part(inner).Of(x, y)
    {
      NestedPart(outer, inner, x, y);
    }
    if polygon != [] {
      SameSums(Within(Part(inner), outer), Part(inner), polygon[|polygon| - 1], polygon);
    }
    AreaOfClip(inner, polygon);
  }

  lemma {:induction false} SameSums(a: Weight, b: Weight, p: Point, chain: seq<Point>)
    requires forall x, y :: a.Of(x, y) == b.Of(x, y)
    ensures ChainSum(a, p, chain) == ChainSum(b, p, chain)
    decreases |chain|
  {
    if chain != [] {
      SameSums(a, b, chain[0], chain[1..]);
    }
  }
}
