/**
 The square drop of native/src/DrizzleKernel.cpp: the exact overlap of a mapped quadrilateral with an
 output pixel, and the conservation of the drop's area over the pixel grid.
 */
module DrizzleDrop {
  import opened PolygonClip
  import opened ConvexClip
  import opened Reals

  function Low(vertical: bool, k: int): HalfPlane { HalfPlane(vertical, k as real - 0.5, true) }

  function High(vertical: bool, k: int): HalfPlane { HalfPlane(vertical, k as real + 0.5, false) }

  /** The pixel column px cut out of a polygon. */
  function Slab(vertical: bool, k: int, polygon: seq<Point>): seq<Point> {
    Clip(High(vertical, k), Clip(Low(vertical, k), polygon))
  }

  /** Twice the signed area of a polygon inside pixel (px, py), with the early exits of QuadPixelOverlap. */
  function SignedOverlap(polygon: seq<Point>, px: int, py: int): real {
    var a := Clip(Low(true, px), polygon);
    if |a| < 3 then 0.0 else
    var b := Clip(High(true, px), a);
    if |b| < 3 then 0.0 else
    var c := Clip(Low(false, py), b);
    if |c| < 3 then 0.0 else
    var d := Clip(High(false, py), c);
    if |d| < 3 then 0.0 else Area2(d)
  }

  /** QuadPixelOverlap: the area of the polygon inside the pixel. */
  function Overlap(polygon: seq<Point>, px: int, py: int): real {
    Abs(SignedOverlap(polygon, px, py)) * 0.5
  }

  // ----- degenerate polygons have no area -----

  lemma PartReversed(h: HalfPlane, p: Point, q: Point)
    ensures Part(h).Of(p, q) == -Part(h).Of(q, p)
  {
    if h.Keep(p) != h.Keep(q) {
      IntersectSymmetric(h, p, q);
    }
  }

  lemma TwoSum(w: Weight, polygon: seq<Point>)
    requires |polygon| <= 2
    ensures |polygon| == 1 ==> CycleSum(w, polygon) == w.Of(polygon[0], polygon[0])
    ensures |polygon| == 2 ==> CycleSum(w, polygon) == w.Of(polygon[1], polygon[0]) + w.Of(polygon[0], polygon[1])
  {
    hide Weight.Of;
    if |polygon| == 2 {
      var rest := polygon[1..];
      assert rest == [polygon[1]];
      assert rest[1..] == [];
      assert ChainSum(w, polygon[0], rest) == w.Of(polygon[0], polygon[1]);
    } else if |polygon| == 1 {
      var rest := polygon[1..];
      assert rest == [] && ChainSum(w, polygon[0], rest) == 0.0;
      assert ChainSum(w, polygon[0], polygon) == w.Of(polygon[0], polygon[0]) + ChainSum(w, polygon[0], rest);
    }
  }

  /** With fewer than three vertices there is no area, and no clip finds any. */
  lemma SmallArea(h: HalfPlane, polygon: seq<Point>)
    requires |polygon| < 3
    ensures Area2(polygon) == 0.0 && Area2(Clip(h, polygon)) == 0.0
  {
    TwoSum(Cross, polygon);
    AreaOfClip(h, polygon);
    TwoSum(Part(h), polygon);
    if |polygon| > 0 {
      PartReversed(h, polygon[0], polygon[0]);
      PartReversed(h, polygon[0], polygon[|polygon| - 1]);
    }
  }

  // ----- clips and bounds -----

  ghost predicate Bounded(vertical: bool, low: real, high: real, polygon: seq<Point>) {
    forall i :: 0 <= i < |polygon| ==> low <= Coordinate(vertical, polygon[i]) <= high
  }

  /** Clipping creates no point outside the polygon's bounds. */
  lemma {:induction false} ChainBounded(vertical: bool, low: real, high: real, h: HalfPlane, p: Point,
                                        chain: seq<Point>)
    requires Bounded(vertical, low, high, chain) && low <= Coordinate(vertical, p) <= high
    ensures Bounded(vertical, low, high, ClipChain(h, p, chain))
    decreases |chain|
  {
    if chain != [] {
      var q := chain[0];
      if h.Keep(p) != h.Keep(q) {
        var t := IntersectDivides(h, p, q);
        DividesBetween(vertical, p, q, t, h.Intersect(p, q));
      }
      ChainBounded(vertical, low, high, h, q, chain[1..]);
    }
  }

  lemma ClipBounded(vertical: bool, low: real, high: real, h: HalfPlane, polygon: seq<Point>)
    requires Bounded(vertical, low, high, polygon)
    ensures Bounded(vertical, low, high, Clip(h, polygon))
  {
    if polygon != [] {
      ChainBounded(vertical, low, high, h, polygon[|polygon| - 1], polygon);
    }
  }

  /** Every written point lies inside the half-plane. */
  lemma {:induction false} ChainInside(h: HalfPlane, p: Point, chain: seq<Point>)
    ensures forall i :: 0 <= i < |ClipChain(h, p, chain)| ==> h.Keep(ClipChain(h, p, chain)[i])
    decreases |chain|
  {
    if chain != [] {
      ChainInside(h, chain[0], chain[1..]);
    }
  }

  lemma {:induction false} ChainKept(h: HalfPlane, p: Point, chain: seq<Point>)
    requires h.Keep(p) && forall i :: 0 <= i < |chain| ==> h.Keep(chain[i])
    ensures ClipChain(h, p, chain) == chain
    decreases |chain|
  {
    if chain != [] {
      ChainKept(h, chain[0], chain[1..]);
      assert chain == [chain[0]] + chain[1..];
    }
  }

  lemma AllKept(h: HalfPlane, polygon: seq<Point>)
    requires forall i :: 0 <= i < |polygon| ==> h.Keep(polygon[i])
    ensures Clip(h, polygon) == polygon
  {
    if polygon != [] {
      ChainKept(h, polygon[|polygon| - 1], polygon);
    }
  }

  // ----- slabs telescope -----

  /** Twice the area on the upper side of a border. */
  function Upper(vertical: bool, c: real, polygon: seq<Point>): real {
    Area2(Clip(HalfPlane(vertical, c, true), polygon))
  }

  lemma SlabArea(vertical: bool, k: int, polygon: seq<Point>)
    ensures Area2(Slab(vertical, k, polygon))
      == Upper(vertical, k as real - 0.5, polygon) - Upper(vertical, k as real + 0.5, polygon)
  {
    var cut := HalfPlane(vertical, k as real + 0.5, true);
    assert cut.Opposite() == High(vertical, k);
    AreaSplits(cut, Clip(Low(vertical, k), polygon));
    NestedArea(Low(vertical, k), cut, polygon);
  }

  /** The signed areas of n slabs from k on. */
  function SlabTotal(vertical: bool, k: int, n: nat, polygon: seq<Point>): real {
    if n == 0 then 0.0 else SlabTotal(vertical, k, n - 1, polygon) + Area2(Slab(vertical, k + n - 1, polygon))
  }

  lemma {:induction false} SlabsTelescope(vertical: bool, k: int, n: nat, polygon: seq<Point>)
    ensures SlabTotal(vertical, k, n, polygon)
      == Upper(vertical, k as real - 0.5, polygon) - Upper(vertical, (k + n) as real - 0.5, polygon)
  {
    hide Slab, Upper, Area2;
    if n > 0 {
      SlabsTelescope(vertical, k, n - 1, polygon);
      SlabArea(vertical, k + n - 1, polygon);
      assert (k + n - 1) as real + 0.5 == (k + n) as real - 0.5;
    }
  }

  /** Slabs that cover a polygon add up to its area, whatever its shape. */
  lemma SlabsCover(vertical: bool, k: int, n: nat, polygon: seq<Point>)
    requires Bounded(vertical, k as real - 0.5, (k + n) as real - 0.5, polygon)
    ensures SlabTotal(vertical, k, n, polygon) == Area2(polygon)
  {
    SlabsTelescope(vertical, k, n, polygon);
    AllKept(HalfPlane(vertical, k as real - 0.5, true), polygon);
    var far := HalfPlane(vertical, (k + n) as real - 0.5, true);
    AreaSplits(far, polygon);
    AllKept(far.Opposite(), polygon);
  }

  // ----- signed conservation -----

  lemma PixelIsSlab(polygon: seq<Point>, px: int, py: int)
    ensures SignedOverlap(polygon, px, py)
        == if |Clip(Low(true, px), polygon)| < 3 || |Slab(true, px, polygon)| < 3 then 0.0
           else Area2(Slab(false, py, Slab(true, px, polygon)))
  {
    var b := Slab(true, px, polygon);
    var c := Clip(Low(false, py), b);
    var d := Clip(High(false, py), c);
    if |c| < 3 {
      SmallArea(High(false, py), c);
    } else if |d| < 3 {
      SmallArea(High(false, py), d);
    }
  }

  /** The pixels (px, v) ... (px, v + n - 1). */
  function ColumnTotal(polygon: seq<Point>, px: int, v: int, n: nat): real {
    if n == 0 then 0.0 else ColumnTotal(polygon, px, v, n - 1) + SignedOverlap(polygon, px, v + n - 1)
  }

  lemma {:induction false} ColumnIsSlabs(polygon: seq<Point>, px: int, v: int, n: nat)
    ensures ColumnTotal(polygon, px, v, n)
        == if |Clip(Low(true, px), polygon)| < 3 || |Slab(true, px, polygon)| < 3 then 0.0
           else SlabTotal(false, v, n, Slab(true, px, polygon))
  {
    hide Clip, Slab, SignedOverlap, Area2;
    if n > 0 {
      ColumnIsSlabs(polygon, px, v, n - 1);
      PixelIsSlab(polygon, px, v + n - 1);
    }
  }

  lemma ColumnCovers(polygon: seq<Point>, px: int, v: int, n: nat)
    requires Bounded(false, v as real - 0.5, (v + n) as real - 0.5, polygon)
    ensures ColumnTotal(polygon, px, v, n) == Area2(Slab(true, px, polygon))
  {
    var a, b := Clip(Low(true, px), polygon), Slab(true, px, polygon);
    ColumnIsSlabs(polygon, px, v, n);
    ClipBounded(false, v as real - 0.5, (v + n) as real - 0.5, Low(true, px), polygon);
    ClipBounded(false, v as real - 0.5, (v + n) as real - 0.5, High(true, px), a);
    if |a| < 3 {
      SmallArea(High(true, px), a);
    } else if |b| < 3 {
      SmallArea(High(true, px), b);
    } else {
      SlabsCover(false, v, n, b);
    }
  }

  /** The first m columns from u on. */
  function SignedGrid(polygon: seq<Point>, u: int, m: nat, v: int, n: nat): real {
    if m == 0 then 0.0 else SignedGrid(polygon, u, m - 1, v, n) + ColumnTotal(polygon, u + m - 1, v, n)
  }

  lemma {:induction false} GridIsSlabs(polygon: seq<Point>, u: int, m: nat, v: int, n: nat)
    requires Bounded(false, v as real - 0.5, (v + n) as real - 0.5, polygon)
    ensures SignedGrid(polygon, u, m, v, n) == SlabTotal(true, u, m, polygon)
  {
    hide Bounded, ColumnTotal, Area2, Slab;
    if m > 0 {
      GridIsSlabs(polygon, u, m - 1, v, n);
      ColumnCovers(polygon, u + m - 1, v, n);
    }
  }

  /** For any closed polygon the signed pixel overlaps of a covering grid add up to its signed area. */
  lemma SignedConservation(polygon: seq<Point>, u: int, m: nat, v: int, n: nat)
    requires Bounded(true, u as real - 0.5, (u + m) as real - 0.5, polygon)
    requires Bounded(false, v as real - 0.5, (v + n) as real - 0.5, polygon)
    ensures SignedGrid(polygon, u, m, v, n) == Area2(polygon)
  {
    GridIsSlabs(polygon, u, m, v, n);
    SlabsCover(true, u, m, polygon);
  }

  // ----- conservation for convex drops -----

  /** Twice an area, with the sign of the orientation. */
  function Twice(ccw: bool, area: real): real {
    if ccw then 2.0 * area else -2.0 * area
  }

  /** A convex drop's signed overlaps all have the drop's orientation. */
  lemma OverlapSign(ccw: bool, polygon: seq<Point>, px: int, py: int)
    requires Convex(ccw, polygon)
    ensures SignedOverlap(polygon, px, py) == Twice(ccw, Overlap(polygon, px, py))
  {
    var a := Clip(Low(true, px), polygon);
    var b := Clip(High(true, px), a);
    var c := Clip(Low(false, py), b);
    var d := Clip(High(false, py), c);
    ClipShaped(Turning(ccw), Low(true, px), polygon);
    ClipShaped(Turning(ccw), High(true, px), a);
    ClipShaped(Turning(ccw), Low(false, py), b);
    ClipShaped(Turning(ccw), High(false, py), c);
    ConvexArea(ccw, d);
  }

  /** The overlaps of rows v ... v + n - 1 and columns u ... u + m - 1, row by row as the band loops run. */
  function RowOverlaps(polygon: seq<Point>, u: int, m: nat, py: int): real {
    if m == 0 then 0.0 else RowOverlaps(polygon, u, m - 1, py) + Overlap(polygon, u + m - 1, py)
  }

  function GridOverlaps(polygon: seq<Point>, u: int, m: nat, v: int, n: nat): real {
    if n == 0 then 0.0 else GridOverlaps(polygon, u, m, v, n - 1) + RowOverlaps(polygon, u, m, v + n - 1)
  }

  lemma {:induction false} AddRow(ccw: bool, polygon: seq<Point>, u: int, m: nat, v: int, n: nat)
    requires Convex(ccw, polygon)
    ensures SignedGrid(polygon, u, m, v, n + 1)
         == SignedGrid(polygon, u, m, v, n) + Twice(ccw, RowOverlaps(polygon, u, m, v + n))
  {
    hide SignedOverlap, Overlap, Convex;
    if m > 0 {
      AddRow(ccw, polygon, u, m - 1, v, n);
      OverlapSign(ccw, polygon, u + m - 1, v + n);
    }
  }

  lemma {:induction false} NoRows(polygon: seq<Point>, u: int, m: nat, v: int)
    ensures SignedGrid(polygon, u, m, v, 0) == 0.0
  {
    if m > 0 {
      NoRows(polygon, u, m - 1, v);
    }
  }

  lemma {:induction false} GridSigned(ccw: bool, polygon: seq<Point>, u: int, m: nat, v: int, n: nat)
    requires Convex(ccw, polygon)
    ensures SignedGrid(polygon, u, m, v, n) == Twice(ccw, GridOverlaps(polygon, u, m, v, n))
  {
    hide SignedGrid, RowOverlaps, Convex;
    if n == 0 {
      NoRows(polygon, u, m, v);
    } else {
      GridSigned(ccw, polygon, u, m, v, n - 1);
      AddRow(ccw, polygon, u, m, v, n - 1);
    }
  }

  /** The area of a polygon (PolygonArea). */
  function Area(polygon: seq<Point>): real {
    Abs(Area2(polygon)) * 0.5
  }

  /** Conservation: over any covering grid the overlaps of a convex polygon add up to exactly its area. */
  lemma DropConservation(ccw: bool, polygon: seq<Point>, u: int, m: nat, v: int, n: nat)
    requires Convex(ccw, polygon)
    requires Bounded(true, u as real - 0.5, (u + m) as real - 0.5, polygon)
    requires Bounded(false, v as real - 0.5, (v + n) as real - 0.5, polygon)
    ensures GridOverlaps(polygon, u, m, v, n) == Area(polygon)
  {
    SignedConservation(polygon, u, m, v, n);
    GridSigned(ccw, polygon, u, m, v, n);
    ConvexArea(ccw, polygon);
  }

  // ----- the bounding box of the band loops -----

  function Min4(a: real, b: real, c: real, d: real): real { Min(Min(a, b), Min(c, d)) }

  function Max4(a: real, b: real, c: real, d: real): real { -Min4(-a, -b, -c, -d) }

  /** floor(minimum + 0.5): the first pixel row or column the loops visit. */
  function FirstPixel(vertical: bool, quad: seq<Point>): int
    requires |quad| == 4
  {
    (Min4(Coordinate(vertical, quad[0]), Coordinate(vertical, quad[1]), Coordinate(vertical, quad[2]),
        Coordinate(vertical, quad[3])) + 0.5).Floor
  }

  /** floor(maximum + 0.5): the last one. */
  function LastPixel(vertical: bool, quad: seq<Point>): int
    requires |quad| == 4
  {
    (Max4(Coordinate(vertical, quad[0]), Coordinate(vertical, quad[1]), Coordinate(vertical, quad[2]),
        Coordinate(vertical, quad[3])) + 0.5).Floor
  }

  lemma BoxBounds(vertical: bool, quad: seq<Point>)
    requires |quad| == 4
    ensures FirstPixel(vertical, quad) <= LastPixel(vertical, quad)
    ensures forall i :: 0 <= i < 4 ==>
      FirstPixel(vertical, quad) as real - 0.5
          <= Coordinate(vertical, quad[i]) < LastPixel(vertical, quad) as real + 0.5
  {}

  /** A polygon on one line across the border has no area. */
  lemma FlatArea(vertical: bool, c: real, polygon: seq<Point>)
    requires Bounded(vertical, c, c, polygon)
    ensures Area2(polygon) == 0.0
  {
    var h := HalfPlane(vertical, c, true);
    AreaAbout(h, polygon);
    if polygon != [] {
      FlatChain(h, polygon[|polygon| - 1], polygon);
    }
  }

  lemma {:induction false} FlatChain(h: HalfPlane, p: Point, chain: seq<Point>)
    requires h.OnBorder(p) && forall i :: 0 <= i < |chain| ==> h.OnBorder(chain[i])
    ensures ChainSum(About(h), p, chain) == 0.0
    decreases |chain|
  {
    if chain != [] {
      BorderZero(h);
      FlatChain(h, chain[0], chain[1..]);
    }
  }

  /** A slab keeps a polygon between its two borders. */
  lemma SlabInside(vertical: bool, k: int, polygon: seq<Point>)
    ensures Bounded(vertical, k as real - 0.5, k as real + 0.5, Slab(vertical, k, polygon))
  {
    var a := Clip(Low(vertical, k), polygon);
    if polygon != [] {
      ChainInside(Low(vertical, k), polygon[|polygon| - 1], polygon);
    }
    if a != [] {
      ChainInside(High(vertical, k), a[|a| - 1], a);
      LowKept(vertical, k, a[|a| - 1], a);
    }
  }

  lemma {:induction false} LowKept(vertical: bool, k: int, p: Point, chain: seq<Point>)
    requires Low(vertical, k).Keep(p) && forall i :: 0 <= i < |chain| ==> Low(vertical, k).Keep(chain[i])
    ensures forall i :: 0 <= i < |ClipChain(High(vertical, k), p, chain)| ==>
      Low(vertical, k).Keep(ClipChain(High(vertical, k), p, chain)[i])
    decreases |chain|
  {
    if chain != [] {
      LowKept(vertical, k, chain[0], chain[1..]);
    }
  }

  /** Cutting out a pixel column or row keeps the bounds in either direction. */
  lemma BoundedSlab(vertical: bool, low: real, high: real, across: bool, k: int, polygon: seq<Point>)
    requires Bounded(vertical, low, high, polygon)
    ensures Bounded(vertical, low, high, Slab(across, k, polygon))
  {
    ClipBounded(vertical, low, high, Low(across, k), polygon);
    ClipBounded(vertical, low, high, High(across, k), Clip(Low(across, k), polygon));
  }

  /** The four clips of QuadPixelOverlap. */
  function Cut(polygon: seq<Point>, px: int, py: int): seq<Point> {
    Slab(false, py, Slab(true, px, polygon))
  }

  lemma NoAreaNoOverlap(polygon: seq<Point>, px: int, py: int)
    requires Area2(Cut(polygon, px, py)) == 0.0
    ensures Overlap(polygon, px, py) == 0.0
  {
    PixelIsSlab(polygon, px, py);
  }

  /** A polygon between two bounds that does not reach over the border of a pixel column has no overlap with it. */
  lemma BesideColumn(low: real, high: real, polygon: seq<Point>, px: int, py: int)
    requires Bounded(true, low, high, polygon) && (high <= px as real - 0.5 || low >= px as real + 0.5)
    ensures Overlap(polygon, px, py) == 0.0
  {
    hide Slab, Overlap, Area2;
    SlabInside(true, px, polygon);
    BoundedSlab(true, low, high, true, px, polygon);
    var x := if high <= px as real - 0.5 then px as real - 0.5 else px as real + 0.5;
    BoundedSlab(true, x, x, false, py, Slab(true, px, polygon));
    FlatArea(true, x, Cut(polygon, px, py));
    NoAreaNoOverlap(polygon, px, py);
  }

  /** Nor with a pixel row. */
  lemma BesideRow(low: real, high: real, polygon: seq<Point>, px: int, py: int)
    requires Bounded(false, low, high, polygon) && (high <= py as real - 0.5 || low >= py as real + 0.5)
    ensures Overlap(polygon, px, py) == 0.0
  {
    hide Slab, Overlap, Area2;
    var column := Slab(true, px, polygon);
    BoundedSlab(false, low, high, true, px, polygon);
    SlabInside(false, py, column);
    BoundedSlab(false, low, high, false, py, column);
    var y := if high <= py as real - 0.5 then py as real - 0.5 else py as real + 0.5;
    FlatArea(false, y, Cut(polygon, px, py));
    NoAreaNoOverlap(polygon, px, py);
  }

  /** The loops over the bounding box miss no pixel the drop reaches. */
  lemma OutsideBoxIsZero(quad: seq<Point>, px: int, py: int)
    requires |quad| == 4
    requires !(FirstPixel(true, quad) <= px <= LastPixel(true, quad))
      || !(FirstPixel(false, quad) <= py <= LastPixel(false, quad))
    ensures Overlap(quad, px, py) == 0.0
  {
    BoxBounds(true, quad);
    BoxBounds(false, quad);
    hide FirstPixel, LastPixel, Overlap;
    if !(FirstPixel(true, quad) <= px <= LastPixel(true, quad)) {
      BesideColumn(FirstPixel(true, quad) as real - 0.5, LastPixel(true, quad) as real + 0.5, quad, px, py);
    } else {
      BesideRow(FirstPixel(false, quad) as real - 0.5, LastPixel(false, quad) as real + 0.5, quad, px, py);
    }
  }

  /** The loops over the bounding box deposit the area of any convex drop, flat and three-cornered ones included. */
  lemma BoxConservation(ccw: bool, quad: seq<Point>)
    requires |quad| == 4 && Convex(ccw, quad)
    ensures var u, v := FirstPixel(true, quad), FirstPixel(false, quad);
        GridOverlaps(quad, u, LastPixel(true, quad) - u + 1, v, LastPixel(false, quad) - v + 1) == Area(quad)
  {
    BoxBounds(true, quad);
    BoxBounds(false, quad);
    var u, v := FirstPixel(true, quad), FirstPixel(false, quad);
    DropConservation(ccw, quad, u, LastPixel(true, quad) - u + 1, v, LastPixel(false, quad) - v + 1);
  }
}
