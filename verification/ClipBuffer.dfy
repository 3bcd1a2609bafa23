/**
 The twelve slots of QuadPixelOverlap's buffers (native/src/DrizzleKernel.cpp) hold every clip of every
 quadrilateral, convex or not: no clip makes a polygon cross a line more often.
 */
module ClipBuffer {
  import opened PolygonClip
  import opened ConvexClip
  import opened DrizzleDrop

  function Crosses(h: HalfPlane, p: Point, q: Point): nat {
    if h.Keep(p) != h.Keep(q) then 1 else 0
  }

  /** How often the closed polygon crosses the border of h. */
  function Around(h: HalfPlane, polygon: seq<Point>): nat {
    if polygon == [] then 0 else Crossings(h, polygon[|polygon| - 1], polygon)
  }

  /** The meeting point with another border does not cross anything its edge does not cross. */
  lemma CutCrosses(g: HalfPlane, h: HalfPlane, p: Point, q: Point)
    requires g.Keep(p) != g.Keep(q)
    ensures Crosses(h, p, g.Intersect(p, q)) + Crosses(h, g.Intersect(p, q), q) == Crosses(h, p, q)
  {
    var t := IntersectDivides(g, p, q);
    DividesBetween(h.vertical, p, q, t, g.Intersect(p, q));
  }

  lemma CrossingsStep(h: HalfPlane, p: Point, q: Point, rest: seq<Point>)
    ensures Crossings(h, p, [q] + rest) == Crosses(h, p, q) + Crossings(h, q, rest)
  {
    assert ([q] + rest)[1..] == rest;
  }

  lemma Detour(h: HalfPlane, a: Point, b: Point, c: Point)
    ensures Crosses(h, a, c) <= Crosses(h, a, b) + Crosses(h, b, c) && Crosses(h, a, a) == 0
  {}

  function Last(p: Point, chain: seq<Point>): Point {
    if chain == [] then p else chain[|chain| - 1]
  }

  /** A clipped chain, closed to the chain's own last vertex, crosses no more often than the chain. */
  lemma ChainStep(g: HalfPlane, p: Point, q: Point, rest: seq<Point>)
    ensures var tail := ClipChain(g, q, rest);
      ClipChain(g, p, [q] + rest) ==
        if g.Keep(p) == g.Keep(q) then if g.Keep(q) then [q] + tail else tail
        else [g.Intersect(p, q)] + if g.Keep(q) then [q] + tail else tail
  {
    hide HalfPlane.Keep, HalfPlane.Intersect;
    assert ([q] + rest)[1..] == rest;
    var tail := ClipChain(g, q, rest);
    assert [] + tail == tail;
    if g.Keep(p) != g.Keep(q) {
      var i := g.Intersect(p, q);
      assert [i, q] + tail == [i] + ([q] + tail);
    }
  }

  lemma LastStep(p: Point, q: Point, rest: seq<Point>)
    ensures Last(p, [q] + rest) == Last(q, rest)
  {}

  lemma NoChain(g: HalfPlane, h: HalfPlane, p: Point)
    ensures ClipChain(g, p, []) == [] && Crossings(h, p, []) == 0 && Last(p, []) == p
  {}

  /** What is written behind `emitted` crosses no more than what is still to be read behind p, detours included. */
  ghost predicate Shorter(g: HalfPlane, h: HalfPlane, p: Point, emitted: Point, chain: seq<Point>) {
    var out := ClipChain(g, p, chain);
    Crossings(h, emitted, out) + Crosses(h, Last(emitted, out), Last(p, chain))
    <= Crosses(h, emitted, p) + Crossings(h, p, chain)
  }

  /** The first vertex is kept, behind the border's cut if the one before was not. */
  lemma KeptVertex(g: HalfPlane, h: HalfPlane, p: Point, emitted: Point, q: Point, rest: seq<Point>)
    requires g.Keep(q) && Shorter(g, h, q, q, rest)
    ensures Shorter(g, h, p, emitted, [q] + rest)
  {
    hide HalfPlane.Keep, HalfPlane.Intersect, Crosses, ClipChain, Crossings, Last;
    var tail := ClipChain(g, q, rest);
    ChainStep(g, p, q, rest);
    CrossingsStep(h, p, q, rest);
    LastStep(p, q, rest);
    Detour(h, emitted, p, q);
    Detour(h, q, q, q);
    if g.Keep(p) {
      CrossingsStep(h, emitted, q, tail);
      LastStep(emitted, q, tail);
    } else {
      var i := g.Intersect(p, q);
      CutCrosses(g, h, p, q);
      Detour(h, emitted, p, i);
      CrossingsStep(h, emitted, i, [q] + tail);
      CrossingsStep(h, i, q, tail);
      LastStep(emitted, i, [q] + tail);
      LastStep(i, q, tail);
    }
  }

  /** The edge leaves the half-plane: the cut alone is kept. */
  lemma LeavingEdge(g: HalfPlane, h: HalfPlane, p: Point, emitted: Point, q: Point, rest: seq<Point>)
    requires g.Keep(p) && !g.Keep(q) && Shorter(g, h, q, g.Intersect(p, q), rest)
    ensures Shorter(g, h, p, emitted, [q] + rest)
  {
    hide HalfPlane.Keep, HalfPlane.Intersect, Crosses, ClipChain, Crossings, Last;
    var i, tail := g.Intersect(p, q), ClipChain(g, q, rest);
    ChainStep(g, p, q, rest);
    CrossingsStep(h, p, q, rest);
    LastStep(p, q, rest);
    CutCrosses(g, h, p, q);
    Detour(h, emitted, p, i);
    CrossingsStep(h, emitted, i, tail);
    LastStep(emitted, i, tail);
  }

  lemma OuterEdge(g: HalfPlane, h: HalfPlane, p: Point, emitted: Point, q: Point, rest: seq<Point>)
    requires !g.Keep(p) && !g.Keep(q) && Shorter(g, h, q, emitted, rest)
    ensures Shorter(g, h, p, emitted, [q] + rest)
  {
    hide HalfPlane.Keep, HalfPlane.Intersect, Crosses, ClipChain, Crossings, Last;
    ChainStep(g, p, q, rest);
    CrossingsStep(h, p, q, rest);
    LastStep(p, q, rest);
    Detour(h, emitted, p, q);
  }

  lemma {:induction false} ChainCrosses(g: HalfPlane, h: HalfPlane, p: Point, emitted: Point, chain: seq<Point>)
    ensures Shorter(g, h, p, emitted, chain)
    decreases |chain|
  {
    if chain == [] {
      NoChain(g, h, p);
      NoChain(g, h, emitted);
      hide ClipChain, Crossings, Last, Crosses;
    } else {
      hide *;
      var q, rest := chain[0], chain[1..];
      assert chain == [q] + rest;
      if g.Keep(q) {
        ChainCrosses(g, h, q, q, rest);
        KeptVertex(g, h, p, emitted, q, rest);
      } else if g.Keep(p) {
        ChainCrosses(g, h, q, g.Intersect(p, q), rest);
        LeavingEdge(g, h, p, emitted, q, rest);
      } else {
        ChainCrosses(g, h, q, emitted, rest);
        OuterEdge(g, h, p, emitted, q, rest);
      }
    }
  }

  /** A clip crosses no line more often than the polygon does. */
  lemma ClipCrosses(g: HalfPlane, h: HalfPlane, polygon: seq<Point>)
    ensures Around(h, Clip(g, polygon)) <= Around(h, polygon)
  {
    var out := Clip(g, polygon);
    if polygon != [] && out != [] {
      ChainCrosses(g, h, polygon[|polygon| - 1], out[|out| - 1], polygon);
    }
  }

  /** Every crossing edge has an end outside, and a vertex ends two edges. */
  lemma {:induction false} CrossingEnds(h: HalfPlane, p: Point, chain: seq<Point>)
    ensures KeptCount(h, chain) <= |chain|
    ensures Crossings(h, p, chain) + (if chain != [] && !h.Keep(chain[|chain| - 1]) then 1 else 0)
      <= 2 * (|chain| - KeptCount(h, chain)) + if chain != [] && !h.Keep(p) then 1 else 0
    decreases |chain|
  {
    if chain != [] {
      CrossingEnds(h, chain[0], chain[1..]);
    }
  }

  lemma {:induction false} CrossingsAtMost(h: HalfPlane, p: Point, chain: seq<Point>)
    ensures Crossings(h, p, chain) <= |chain|
    decreases |chain|
  {
    if chain != [] {
      CrossingsAtMost(h, chain[0], chain[1..]);
    }
  }

  /** A clip adds at most one vertex for every two crossings. */
  lemma CrossingGrowth(h: HalfPlane, polygon: seq<Point>)
    ensures 2 * |Clip(h, polygon)| <= 2 * |polygon| + Around(h, polygon)
  {
    if polygon != [] {
      WrittenCount(h, polygon[|polygon| - 1], polygon);
      CrossingEnds(h, polygon[|polygon| - 1], polygon);
    }
  }

  /** So the four clips of any quadrilateral hold at most 6, 8, 10 and 12 vertices. */
  lemma QuadClipSizes(quad: seq<Point>, px: int, py: int)
    requires |quad| == 4
    ensures var a := Clip(Low(true, px), quad); var b := Clip(High(true, px), a); var c := Clip(Low(false, py), b);
      |a| <= 6 && |b| <= 8 && |c| <= 10 && |Clip(High(false, py), c)| <= 12
  {
    hide Clip, Low, High;
    var h1, h2, h3, h4 := Low(true, px), High(true, px), Low(false, py), High(false, py);
    var a := Clip(h1, quad);
    var b := Clip(h2, a);
    var c := Clip(h3, b);
    FourCrossings(h1, quad);
    FourCrossings(h2, quad);
    FourCrossings(h3, quad);
    FourCrossings(h4, quad);
    ClipCrosses(h1, h2, quad);
    ClipCrosses(h1, h3, quad);
    ClipCrosses(h1, h4, quad);
    ClipCrosses(h2, h3, a);
    ClipCrosses(h2, h4, a);
    ClipCrosses(h3, h4, b);
    CrossingGrowth(h1, quad);
    CrossingGrowth(h2, a);
    CrossingGrowth(h3, b);
    CrossingGrowth(h4, c);
  }

  lemma FourCrossings(h: HalfPlane, quad: seq<Point>)
    requires |quad| == 4
    ensures Around(h, quad) <= 4
  {
    CrossingsAtMost(h, quad[3], quad);
  }
}
