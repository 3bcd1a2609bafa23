/**
 The clipping routines of native/src/DrizzleKernel.cpp as they run: output buffers with a counter, and the
 four clips of one pixel in two buffers of twelve points.
 */
module DrizzleOverlap {
  import opened PolygonClip
  import opened ClipBuffer
  import opened ConvexClip
  import opened DrizzleDrop
  import opened Reals

  /** The vertex before vertex i of the closed polygon. */
  function Previous(polygon: seq<Point>, i: nat): Point
    requires i < |polygon|
  {
    if i == 0 then polygon[|polygon| - 1] else polygon[i - 1]
  }

  /** What the vertices of the polygon from the i-th on add to its clip. */
  function ClipRest(h: HalfPlane, polygon: seq<Point>, i: nat): seq<Point>
    requires i <= |polygon|
  {
    if i == |polygon| then [] else ClipChain(h, Previous(polygon, i), polygon[i..])
  }

  lemma ClipStart(h: HalfPlane, polygon: seq<Point>)
    ensures ClipRest(h, polygon, 0) == Clip(h, polygon) && ClipRest(h, polygon, |polygon|) == []
  {
    assert polygon[0..] == polygon;
  }

  /** One more vertex of a clip. */
  lemma ClipStep(h: HalfPlane, polygon: seq<Point>, i: nat, written: seq<Point>)
    requires i < |polygon| && Clip(h, polygon) == written + ClipRest(h, polygon, i)
    ensures Clip(h, polygon)
      == (written + ClipVertex(h, Previous(polygon, i), polygon[i])) + ClipRest(h, polygon, i + 1)
  {
    hide ClipVertex, Clip;
    var rest := polygon[i..];
    assert rest[0] == polygon[i] && rest[1..] == polygon[i + 1..];
    var added, later := ClipVertex(h, Previous(polygon, i), polygon[i]), ClipRest(h, polygon, i + 1);
    assert later == ClipChain(h, polygon[i], polygon[i + 1..]);
    assert ClipRest(h, polygon, i) == added + later;
    assert written + (added + later) == (written + added) + later;
  }

  /** What one vertex adds to the clip: the crossing of the edge that leads to it, itself, both or nothing. */
  method WriteVertex(output: array<Point>, before: nat, h: HalfPlane, previous: Point, current: Point)
    returns (written: nat)
    requires before + |ClipVertex(h, previous, current)| <= output.Length
    modifies output
    ensures written <= output.Length
    ensures output[..written] == old(output[..before]) + ClipVertex(h, previous, current)
  {
    hide HalfPlane.Keep, HalfPlane.Intersect;
    written := before;
    var currentIn := h.Keep(current);
    var previousIn := h.Keep(previous);
    if currentIn {
      if !previousIn {
        output[written] := h.Intersect(previous, current);
        written := written + 1;
      }
      output[written] := current;
      written := written + 1;
    } else if previousIn {
      output[written] := h.Intersect(previous, current);
      written := written + 1;
    }
  }

  /** ClipEdge: clip the polygon in `input` by the half-plane into `output`; returns the vertex count. */
  method ClipEdge(input: array<Point>, count: nat, output: array<Point>, h: HalfPlane) returns (written: nat)
    requires count <= input.Length && input != output && |Clip(h, input[..count])| <= output.Length
    modifies output
    ensures written <= output.Length && output[..written] == Clip(h, input[..count])
  {
    hide Clip, ClipVertex, ClipRest, Previous, HalfPlane.Keep, HalfPlane.Intersect;
    ghost var polygon := input[..count];
    written := 0;
    ClipStart(h, polygon);
    assert output[..0] + Clip(h, polygon) == Clip(h, polygon);
    for i := 0 to count
      invariant written <= output.Length
      invariant Clip(h, polygon) == output[..written] + ClipRest(h, polygon, i)
    {
      var current := input[i];
      var previous := input[(i + count - 1) % count];
      PreviousIs(input, count, i);
      ClipStep(h, polygon, i, output[..written]);
      written := WriteVertex(output, written, h, previous, current);
    }
    assert output[..written] + [] == output[..written];
  }

  lemma PreviousIs(input: array<Point>, count: nat, i: nat)
    requires i < count <= input.Length
    ensures 0 <= (i + count - 1) % count < count
    ensures input[(i + count - 1) % count] == Previous(input[..count], i)
  {
    PreviousIndex(i, count);
  }

  lemma PreviousIndex(i: nat, count: nat)
    requires i < count
    ensures (i + count - 1) % count == if i == 0 then count - 1 else i - 1
  {
    if i > 0 {
      assert (i - 1 + count) % count == i - 1;
    }
  }

  /** The shoelace sum over the first i edges. */
  function EdgesSum(polygon: seq<Point>, i: nat): real
    requires i <= |polygon|
  {
    if polygon == [] then 0.0
    else if i < |polygon| then ChainSum(Cross, polygon[0], polygon[1..i + 1])
    else CycleSum(Cross, polygon)
  }

  lemma NextEdge(polygon: seq<Point>, i: nat)
    requires i < |polygon|
    ensures EdgesSum(polygon, i + 1) == EdgesSum(polygon, i) + Cross.Of(polygon[i], polygon[(i + 1) % |polygon|])
  {
    hide Weight.Of, ChainSum;
    var n, first := |polygon|, polygon[0];
    NextIndex(i, n);
    if i + 1 < n {
      var chain := polygon[1..i + 1];
      assert polygon[1..i + 2] == chain + [polygon[i + 1]];
      LastEdge(first, chain, polygon[i + 1]);
    } else {
      assert polygon[1..i + 1] == polygon[1..];
      ClosingEdge(polygon);
    }
  }

  lemma NextIndex(i: nat, n: nat)
    requires i < n
    ensures (i + 1) % n == if i + 1 < n then i + 1 else 0
  {}

  /** The edge from the last vertex back to the first closes the cycle. */
  lemma ClosingEdge(polygon: seq<Point>)
    requires polygon != []
    ensures CycleSum(Cross, polygon)
      == ChainSum(Cross, polygon[0], polygon[1..]) + Cross.Of(polygon[|polygon| - 1], polygon[0])
  {
    hide Weight.Of;
  }

  lemma EdgesTotal(polygon: seq<Point>)
    ensures EdgesSum(polygon, 0) == 0.0 && EdgesSum(polygon, |polygon|) == Area2(polygon)
  {
    hide Weight.Of;
    if polygon != [] {
      assert polygon[1..1] == [];
    }
  }

  /** PolygonArea: the shoelace area of the first `count` vertices. */
  method PolygonArea(vertices: array<Point>, count: nat) returns (area: real)
    requires count <= vertices.Length
    ensures area == Area(vertices[..count])
  {
    hide EdgesSum, Area2;
    ghost var polygon := vertices[..count];
    EdgesTotal(polygon);
    var twice := 0.0;
    for i := 0 to count
      invariant twice == EdgesSum(polygon, i)
    {
      var p := vertices[i];
      var q := vertices[(i + 1) % count];
      NextEdge(polygon, i);
      twice := twice + (p.x * q.y - q.x * p.y);
    }
    area := Abs(twice) * 0.5;
  }

  lemma LastEdge(p: Point, chain: seq<Point>, q: Point)
    ensures ChainSum(Cross, p, chain + [q])
      == ChainSum(Cross, p, chain) + Cross.Of(if chain == [] then p else chain[|chain| - 1], q)
  {
    ChainSumConcat(Cross, p, chain, [q]);
    assert [q][1..] == [];
  }

  /** The four clips of a convex quadrilateral never hold more than eight vertices. */
  lemma ClipSizes(ccw: bool, quad: seq<Point>, px: int, py: int)
    requires StrictQuad(ccw, quad)
    ensures var a := Clip(Low(true, px), quad); var b := Clip(High(true, px), a); var c := Clip(Low(false, py), b);
        |a| <= 5 && |b| <= 6 && |c| <= 7 && |Clip(High(false, py), c)| <= 8
  {
    var a := Clip(Low(true, px), quad);
    var b := Clip(High(true, px), a);
    var c := Clip(Low(false, py), b);
    QuadShaped(ccw, quad);
    hide Clip, Tame;
    ClipGrowth(Low(true, px), quad);
    ClipShaped(Rising(true), Low(true, px), quad);
    ClipShaped(Rising(false), Low(true, px), quad);
    ClipGrowth(High(true, px), a);
    ClipShaped(Rising(false), High(true, px), a);
    ClipShaped(Rising(false), Low(false, py), b);
    ClipGrowth(Low(false, py), b);
    ClipGrowth(High(false, py), c);
  }

  /** QuadPixelOverlap: the area of any quadrilateral inside one output pixel, exact for a convex one. */
  method QuadPixelOverlap(quad: seq<Point>, px: int, py: int) returns (area: real)
    requires |quad| == 4
    ensures area == Overlap(quad, px, py)
  {
    hide Clip, Area2, Low, High;
    var a, b := new Point[12], new Point[12];
    for i := 0 to 4
      invariant a[..i] == quad[..i]
    {
      a[i] := quad[i];
    }
    QuadClipSizes(quad, px, py);
    assert a[..4] == quad;
    var count := ClipEdge(a, 4, b, Low(true, px));
    if count < 3 { return 0.0; }
    count := ClipEdge(b, count, a, High(true, px));
    if count < 3 { return 0.0; }
    count := ClipEdge(a, count, b, Low(false, py));
    if count < 3 { return 0.0; }
    count := ClipEdge(b, count, a, High(false, py));
    if count < 3 { return 0.0; }
    area := PolygonArea(a, count);
  }
}
