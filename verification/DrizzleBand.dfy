/**
 BandOnReference (native/src/DrizzleKernel.cpp) as it runs: the output rows are worked off in chunks, and every
 chunk visits only the source rows and columns that can reach it. Under a gentle map every output pixel still
 receives the sum over all source pixels. The three accumulator spans are one array of cells here.
 */
module DrizzleBand {
  import opened Arithmetic
  import opened Wrappers
  import opened PolygonClip
  import opened DrizzleDrop
  import opened DrizzleOverlap
  import opened HomographyMaps
  import opened DrizzleSource
  import opened DrizzleReach
  import opened Reals

  /** The accumulators of one output pixel. */
  datatype Cell = Cell(sum: real, weight: real, touched: bool) {
    function Add(ink: Ink): Cell { Cell(sum + ink.sum, weight + ink.weight, touched || ink.weight > 0.0) }
  }

  lemma AddPlus(c: Cell, a: Ink, b: Ink)
    requires a.weight >= 0.0 && b.weight >= 0.0
    ensures c.Add(a).Add(b) == c.Add(a.Plus(b))
  {}

  /** Rows [begin, end) of the band, and the accumulators of the whole band. */
  predicate IsChunk(r: Request, begin: int, end: int, cells: array2<Cell>) {
    0 <= begin < end <= r.outputRows && cells.Length0 == r.outputRows && cells.Length1 == r.outputWidth
  }

  predicate InChunk(r: Request, begin: int, end: int, k: int, u: int) {
    begin <= k < end && 0 <= u < r.outputWidth
  }

  // ----- one drop -----

  /** The accumulate step: areas that are not positive and pixels outside the chunk are ignored. */
  method Accumulate(r: Request, s: Sample, area: real, ou: int, ov: int, begin: int, end: int, cells: array2<Cell>)
    requires IsChunk(r, begin, end, cells) && s.weight > 0.0
    modifies cells
    ensures forall k, u :: 0 <= k < r.outputRows && 0 <= u < r.outputWidth ==>
      cells[k, u] == if InChunk(r, begin, end, k, u) && u == ou && r.outputRow0 + k == ov
                     then old(cells[k, u]).Add(InkOf(s, area)) else old(cells[k, u])
  {
    if area <= 0.0 || ov < r.outputRow0 + begin || ov >= r.outputRow0 + end || ou < 0 || ou >= r.outputWidth { return; }
    var w := s.weight * area;
    InkSign(s.weight, area);
    var c := cells[ov - r.outputRow0, ou];
    cells[ov - r.outputRow0, ou] := Cell(c.sum + w * s.value, c.weight + w, true);
  }

  /** The total of the Gaussian drop's weights over the pixels its loops visit. */
  method BellSum(r: Request, c: Point, u0: int, u1: int, v0: int, v1: int) returns (total: real)
    requires r.Valid()
    ensures total == r.BellBox(c, u0, u1, v0, v1)
  {
    hide Request.Valid, Request.Bell;
    total := 0.0;
    var ov := v0;
    while ov < v1
      invariant v0 <= ov <= if v1 < v0 then v0 else v1
      invariant total == r.BellBox(c, u0, u1, v0, ov)
    {
      ghost var before := total;
      var ou := u0;
      while ou < u1
        invariant u0 <= ou <= if u1 < u0 then u0 else u1
        invariant total == before + r.BellRow(c, u0, ou, ov)
      {
        total := total + r.Bell(c, ou, ov);
        ou := ou + 1;
      }
      EmptyRow(r, c, u0, u1, ov);
      ov := ov + 1;
    }
  }

  lemma EmptyRow(r: Request, c: Point, u0: int, u1: int, ov: int)
    requires r.Valid()
    ensures u1 <= u0 ==> r.BellRow(c, u0, u1, ov) == 0.0 == r.BellRow(c, u0, u0, ov)
  {
    hide Request.Valid, Request.Bell;
  }

  /** What the drop loops visit: columns [u0, u1) and rows [v0, v1); no other pixel of the chunk is reached. */
  ghost predicate Covers(r: Request, x: int, y: int, u0: int, u1: int, v0: int, v1: int, begin: int, end: int)
    requires r.Valid() && r.Inside(x, y)
  {
    forall k, u :: InChunk(r, begin, end, k, u) && !(u0 <= u < u1 && v0 <= r.outputRow0 + k < v1) ==>
        r.AreaOn(x, y, u, r.outputRow0 + k) <= 0.0
  }

  predicate Within(c: real, reach: real, low: int, past: int) {
    low < past ==> InReach(c, reach, low) && InReach(c, reach, past - 1)
  }

  /** Every visited pixel passes the drop's own loop bounds. */
  predicate Visits(r: Request, x: int, y: int, u0: int, u1: int, v0: int, v1: int)
    requires r.Valid() && r.Inside(x, y)
  {
    var c := r.Centre(x, y);
    match r.kernel
    case PointDrop => false
    case Square => true
    case Circular => Within(c.x, r.DropRadius(), u0, u1) && Within(c.y, r.DropRadius(), v0, v1)
    case Gaussian =>
      r.BellTotal(c) > 0.0 && Within(c.x, 3.0 * r.Sigma(), u0, u1) && Within(c.y, 3.0 * r.Sigma(), v0, v1)
  }

  lemma VisitsPart(r: Request, x: int, y: int, u0: int, u1: int, v0: int, v1: int, a0: int, a1: int, b0: int, b1: int)
    requires r.Valid() && r.Inside(x, y) && Visits(r, x, y, u0, u1, v0, v1) && u0 <= a0 && a1 <= u1 && v0 <= b0
      && b1 <= v1
    ensures Visits(r, x, y, a0, a1, b0, b1)
  {
    hide Request.Valid, Request.Centre, Request.DropRadius, Request.Sigma, Request.BellTotal;
  }

  /** The area of a drop on one of the pixels its loops visit. */
  method PixelArea(r: Request, x: int, y: int, total: real, u: int, v: int) returns (area: real)
    requires r.Valid() && r.Inside(x, y) && Visits(r, x, y, u, u + 1, v, v + 1)
      && (r.kernel == Gaussian ==> total == r.BellTotal(r.Centre(x, y)))
    ensures area == r.AreaOn(x, y, u, v)
  {
    hide Request.Valid, Request.Centre, Request.DropRadius, Request.Sigma, Request.BellTotal, Request.Bell,
        Request.Jacobian, Request.Drop;
    hide Overlap, InReach;
    var c := r.Centre(x, y);
    match r.kernel {
      case PointDrop => assert false;
      case Square =>
        FourCorners(r, x, y);
        area := QuadPixelOverlap(r.Drop(x, y), u, v);
      case Circular => area := r.disc(c.x, c.y, r.DropRadius(), u, v);
      case Gaussian => area := r.pixfrac * r.pixfrac * r.Jacobian() * r.Bell(c, u, v) / total;
    }
  }

  /** The columns [u0, u1) of output row v. */
  method SpreadRow(r: Request, x: int, y: int, s: Sample, total: real, u0: int, u1: int, v: int, begin: int, end: int,
                   cells: array2<Cell>)
    requires r.Valid() && r.Inside(x, y) && IsChunk(r, begin, end, cells) && s.weight > 0.0
    requires Visits(r, x, y, u0, u1, v, v + 1) && (r.kernel == Gaussian ==> total == r.BellTotal(r.Centre(x, y)))
    modifies cells
    ensures forall k, u :: 0 <= k < r.outputRows && 0 <= u < r.outputWidth ==>
      cells[k, u] == if InChunk(r, begin, end, k, u) && u0 <= u < u1 && r.outputRow0 + k == v
                     then old(cells[k, u]).Add(InkOf(s, r.AreaOn(x, y, u, v))) else old(cells[k, u])
  {
    hide Request.Valid, Request.AreaOn, InkOf, Cell.Add, Request.Centre, Visits;
    var ou := u0;
    while ou < u1
      invariant u0 <= ou <= if u1 < u0 then u0 else u1
      invariant forall k, u :: 0 <= k < r.outputRows && 0 <= u < r.outputWidth ==>
        cells[k, u] == if InChunk(r, begin, end, k, u) && u0 <= u < ou && r.outputRow0 + k == v
                       then old(cells[k, u]).Add(InkOf(s, r.AreaOn(x, y, u, v))) else old(cells[k, u])
    {
      VisitsPart(r, x, y, u0, u1, v, v + 1, ou, ou + 1, v, v + 1);
      var area := PixelArea(r, x, y, total, ou, v);
      Accumulate(r, s, area, ou, v, begin, end, cells);
      ou := ou + 1;
    }
  }

  /** The loop nest of a drop over the rows [v0, v1) and the columns [u0, u1). */
  method Spread(r: Request, x: int, y: int, s: Sample, total: real, u0: int, u1: int, v0: int, v1: int, begin: int,
                end: int, cells: array2<Cell>)
    requires r.Valid() && r.Inside(x, y) && IsChunk(r, begin, end, cells) && s.weight > 0.0
    requires Visits(r, x, y, u0, u1, v0, v1) && (r.kernel == Gaussian ==> total == r.BellTotal(r.Centre(x, y)))
    requires Covers(r, x, y, u0, u1, v0, v1, begin, end)
    modifies cells
    ensures forall k, u :: 0 <= k < r.outputRows && 0 <= u < r.outputWidth ==>
      cells[k, u] == if InChunk(r, begin, end, k, u)
                     then old(cells[k, u]).Add(InkOf(s, r.AreaOn(x, y, u, r.outputRow0 + k))) else old(cells[k, u])
  {
    hide Request.Valid, Request.AreaOn, Request.Centre, Visits;
    var ov := v0;
    while ov < v1
      invariant v0 <= ov <= if v1 < v0 then v0 else v1
      invariant forall k, u :: 0 <= k < r.outputRows && 0 <= u < r.outputWidth ==>
        cells[k, u] == if InChunk(r, begin, end, k, u) && u0 <= u < u1 && v0 <= r.outputRow0 + k < ov
                       then old(cells[k, u]).Add(InkOf(s, r.AreaOn(x, y, u, r.outputRow0 + k)))
                       else old(cells[k, u])
    {
      VisitsPart(r, x, y, u0, u1, v0, v1, u0, u1, ov, ov + 1);
      SpreadRow(r, x, y, s, total, u0, u1, ov, begin, end, cells);
      ov := ov + 1;
    }
  }

  lemma SquareCovers(r: Request, x: int, y: int, u0: int, u1: int, v0: int, v1: int, begin: int, end: int)
    requires r.Valid() && r.Inside(x, y) && r.kernel == Square && |r.Drop(x, y)| == 4
    requires var q := r.Drop(x, y);
        u0 == Larger(0, FirstPixel(true, q)) && u1 == Smaller(r.outputWidth - 1, LastPixel(true, q)) + 1
        && v0 == Larger(r.outputRow0 + begin, FirstPixel(false, q))
        && v1 == Smaller(r.outputRow0 + end - 1, LastPixel(false, q)) + 1
    ensures Covers(r, x, y, u0, u1, v0, v1, begin, end) && Visits(r, x, y, u0, u1, v0, v1)
  {
    hide Request.Valid, FirstPixel, LastPixel, Overlap, Request.Drop, Request.Centre;
    forall k, u | InChunk(r, begin, end, k, u) && !(u0 <= u < u1 && v0 <= r.outputRow0 + k < v1)
      ensures r.AreaOn(x, y, u, r.outputRow0 + k) <= 0.0
    {
      OutsideBoxIsZero(r.Drop(x, y), u, r.outputRow0 + k);
    }
  }

  lemma ReachCovers(r: Request, x: int, y: int, c: Point, reach: real, u0: int, u1: int, v0: int, v1: int, begin: int,
                    end: int)
    requires r.Valid() && r.Inside(x, y) && c == r.Centre(x, y)
    requires (r.kernel == Circular && reach == r.DropRadius())
      || (r.kernel == Gaussian && reach == 3.0 * r.Sigma() && r.BellTotal(c) > 0.0)
    requires u0 == Larger(0, (c.x - reach + 0.5).Floor)
      && u1 == Smaller(r.outputWidth - 1, (c.x + reach + 0.5).Floor) + 1
    requires v0 == Larger(r.outputRow0 + begin, (c.y - reach + 0.5).Floor)
      && v1 == Smaller(r.outputRow0 + end - 1, (c.y + reach + 0.5).Floor) + 1
    ensures Covers(r, x, y, u0, u1, v0, v1, begin, end) && Visits(r, x, y, u0, u1, v0, v1)
  {
    hide Request.Valid, Request.Centre, Request.DropRadius, Request.Sigma, Request.BellTotal, Request.Bell,
        Request.Jacobian;
  }

  lemma NoBell(r: Request, x: int, y: int, ou: int, ov: int)
    requires r.Valid() && r.Inside(x, y) && r.kernel == Gaussian && r.BellTotal(r.Centre(x, y)) <= 0.0
    ensures r.AreaOn(x, y, ou, ov) == 0.0
  {
    hide Request.Valid, Request.Centre, Request.Sigma, Request.BellTotal, Request.Bell, Request.Jacobian;
  }

  /** What a drop leaves on every cell of the chunk. */
  method DropSample(r: Request, x: int, y: int, s: Sample, begin: int, end: int, cells: array2<Cell>)
    requires r.Valid() && r.Inside(x, y) && IsChunk(r, begin, end, cells) && s.weight > 0.0
    modifies cells
    ensures forall k, u :: 0 <= k < r.outputRows && 0 <= u < r.outputWidth ==>
      cells[k, u] == if InChunk(r, begin, end, k, u)
                     then old(cells[k, u]).Add(InkOf(s, r.AreaOn(x, y, u, r.outputRow0 + k))) else old(cells[k, u])
  {
    var c := r.Centre(x, y);
    var bandRow0, bandRow1 := r.outputRow0 + begin, r.outputRow0 + end;
    match r.kernel {
      case PointDrop =>
        hide Request.Valid, Request.Centre;
        Accumulate(r, s, 1.0, Round(c.x), Round(c.y), begin, end, cells);
      case Square =>
        hide Request.Valid, Request.Centre, FirstPixel, LastPixel;
        FourCorners(r, x, y);
        hide *;
        var q := r.Drop(x, y);
        var u0, u1 := Larger(0, FirstPixel(true, q)), Smaller(r.outputWidth - 1, LastPixel(true, q)) + 1;
        var v0, v1 := Larger(bandRow0, FirstPixel(false, q)), Smaller(bandRow1 - 1, LastPixel(false, q)) + 1;
        SquareCovers(r, x, y, u0, u1, v0, v1, begin, end);
        Spread(r, x, y, s, 0.0, u0, u1, v0, v1, begin, end, cells);
      case Circular =>
        hide *;
        var reach := r.DropRadius();
        var u0, u1 := Larger(0, (c.x - reach + 0.5).Floor), Smaller(r.outputWidth - 1, (c.x + reach + 0.5).Floor) + 1;
        var v0, v1 := Larger(bandRow0, (c.y - reach + 0.5).Floor), Smaller(bandRow1 - 1, (c.y + reach + 0.5).Floor) + 1;
        ReachCovers(r, x, y, c, reach, u0, u1, v0, v1, begin, end);
        Spread(r, x, y, s, 0.0, u0, u1, v0, v1, begin, end, cells);
      case Gaussian =>
        hide Request.Valid, Request.Centre, Request.Sigma, Request.BellBox, Request.AreaOn;
        var reach := 3.0 * r.Sigma();
        var u0, u1 := Larger(0, (c.x - reach + 0.5).Floor), Smaller(r.outputWidth - 1, (c.x + reach + 0.5).Floor) + 1;
        var all0, all1 := (c.y - reach + 0.5).Floor, (c.y + reach + 0.5).Floor;
        var total := BellSum(r, c, u0, u1, all0, all1 + 1);
        assert total == r.BellTotal(c);
        if total > 0.0 {
          var v0, v1 := Larger(bandRow0, all0), Smaller(bandRow1 - 1, all1) + 1;
          ReachCovers(r, x, y, c, reach, u0, u1, v0, v1, begin, end);
          hide *;
          Spread(r, x, y, s, total, u0, u1, v0, v1, begin, end, cells);
        } else {
          forall k, u | InChunk(r, begin, end, k, u)
            ensures r.AreaOn(x, y, u, r.outputRow0 + k) == 0.0
          {
            NoBell(r, x, y, u, r.outputRow0 + k);
          }
        }
    }
  }

  lemma FourCorners(r: Request, x: int, y: int)
    requires r.Valid() && r.Inside(x, y)
    ensures |r.Drop(x, y)| == 4
  {
    hide Request.Valid, Homography.Map, Homography.W;
  }

  // ----- source rows and chunks -----

  /** What the loops of the chunk of rows [first, past) add for one source pixel. */
  function PixelInk(r: Request, x: int, y: int, first: int, past: int, ou: int, ov: int): (ink: Ink)
    requires r.Valid() && r.Inside(x, y)
    ensures ink.weight >= 0.0
  {
    if Visited(r, x, y, first, past) then r.DropInk(x, y, ou, ov) else NOTHING
  }

  /** For the first n pixels of source row y. */
  function RowsInk(r: Request, y: int, n: nat, first: int, past: int, ou: int, ov: int): (ink: Ink)
    requires r.Valid() && r.row0 <= y < r.row0 + |r.source| && n <= r.width
    ensures ink.weight >= 0.0
  {
    if n == 0 then NOTHING
    else RowsInk(r, y, n - 1, first, past, ou, ov).Plus(PixelInk(r, n - 1, y, first, past, ou, ov))
  }

  /** For the source rows before row y. */
  function ChunkInk(r: Request, y: int, first: int, past: int, ou: int, ov: int): (ink: Ink)
    requires r.Valid() && r.row0 <= y <= r.row0 + |r.source|
    ensures ink.weight >= 0.0
    decreases y
  {
    if y == r.row0 then NOTHING
    else ChunkInk(r, y - 1, first, past, ou, ov).Plus(RowsInk(r, y - 1, r.width, first, past, ou, ov))
  }

  /** What one source pixel of the run of a row leaves on every cell of the chunk. */
  method VisitPixel(r: Request, x: int, y: int, begin: int, end: int, cells: array2<Cell>)
    requires r.Valid() && IsChunk(r, begin, end, cells) && r.Inside(x, y) && IsRow(r, y)
    requires InRows(r, y, r.outputRow0 + begin, r.outputRow0 + end)
    requires RunOf(r, y, r.outputRow0 + begin, r.outputRow0 + end).Has(x)
    modifies cells
    ensures forall k, u :: 0 <= k < r.outputRows && 0 <= u < r.outputWidth ==>
      cells[k, u] == if InChunk(r, begin, end, k, u)
        then old(cells[k, u]).Add(PixelInk(r, x, y, r.outputRow0 + begin, r.outputRow0 + end, u, r.outputRow0 + k))
        else old(cells[k, u])
  {
    hide Request.Valid, Request.Inside, Request.SampleOf, Request.AreaOn, Request.Centre;
    hide TopEdge, BottomEdge, LeftEdge, RightEdge, CentreInside, InRows, RunOf;
    var first, past := r.outputRow0 + begin, r.outputRow0 + end;
    if !CentreInside(r, r.Centre(x, y), first, past) { return; }
    var sample := r.SampleOf(x, y);
    if sample == None { return; }
    DropSample(r, x, y, sample.value, begin, end, cells);
  }

  /** Source pixels [n, m) of row y are not visited for the rows [first, past). */
  ghost predicate Silent(r: Request, y: int, n: int, m: int, first: int, past: int)
    requires r.Valid() && r.row0 <= y < r.row0 + |r.source| && 0 <= n && m <= r.width
  {
    forall x :: n <= x < m ==> !Visited(r, x, y, first, past)
  }

  lemma {:induction false} SkippedColumns(r: Request, y: int, n: nat, m: nat, first: int, past: int, ou: int, ov: int)
    requires r.Valid() && r.row0 <= y < r.row0 + |r.source| && n <= m <= r.width && Silent(r, y, n, m, first, past)
    ensures RowsInk(r, y, m, first, past, ou, ov) == RowsInk(r, y, n, first, past, ou, ov)
    decreases m
  {
    hide *;
    if n < m {
      RowStep(r, y, m, first, past, ou, ov);
      LastColumn(r, y, n, m, first, past, ou, ov);
      SkippedColumns(r, y, n, m - 1, first, past, ou, ov);
      PlusNothing(RowsInk(r, y, m - 1, first, past, ou, ov));
    }
  }

  lemma RowStep(r: Request, y: int, m: nat, first: int, past: int, ou: int, ov: int)
    requires r.Valid() && r.row0 <= y < r.row0 + |r.source| && 0 < m <= r.width
    ensures r.Inside(m - 1, y)
    ensures RowsInk(r, y, m, first, past, ou, ov)
         == RowsInk(r, y, m - 1, first, past, ou, ov).Plus(PixelInk(r, m - 1, y, first, past, ou, ov))
  {
    hide Request.Valid, PixelInk;
  }

  lemma LastColumn(r: Request, y: int, n: nat, m: nat, first: int, past: int, ou: int, ov: int)
    requires r.Valid() && r.row0 <= y < r.row0 + |r.source| && n < m <= r.width && Silent(r, y, n, m, first, past)
    ensures r.Inside(m - 1, y)
    ensures Silent(r, y, n, m - 1, first, past) && PixelInk(r, m - 1, y, first, past, ou, ov) == NOTHING
  {
    hide Request.Valid, Request.DropInk, Visited;
    assert !Visited(r, m - 1, y, first, past);
  }

  /** No pixel of the source rows [y, z) is visited for the rows [first, past). */
  ghost predicate SilentRows(r: Request, y: int, z: int, first: int, past: int)
    requires r.Valid() && r.row0 <= y && z <= r.row0 + |r.source|
  {
    forall t :: y <= t < z ==> Silent(r, t, 0, r.width, first, past)
  }

  lemma {:induction false} SkippedRows(r: Request, y: int, z: int, first: int, past: int, ou: int, ov: int)
    requires r.Valid() && r.row0 <= y <= z <= r.row0 + |r.source|
    requires SilentRows(r, y, z, first, past)
    ensures ChunkInk(r, z, first, past, ou, ov) == ChunkInk(r, y, first, past, ou, ov)
    decreases z
  {
    hide *;
    if y < z {
      AllStep(r, z, first, past, ou, ov);
      LastSilent(r, y, z, first, past);
      SkippedRows(r, y, z - 1, first, past, ou, ov);
      SkippedColumns(r, z - 1, 0, r.width, first, past, ou, ov);
      EmptySum(r, z - 1, first, past, ou, ov);
      PlusNothing(ChunkInk(r, z - 1, first, past, ou, ov));
    }
  }

  lemma PlusNothing(ink: Ink)
    ensures ink.Plus(NOTHING) == ink
  {}

  lemma AllStep(r: Request, z: int, first: int, past: int, ou: int, ov: int)
    requires r.Valid() && r.row0 < z <= r.row0 + |r.source|
    ensures ChunkInk(r, z, first, past, ou, ov)
         == ChunkInk(r, z - 1, first, past, ou, ov).Plus(RowsInk(r, z - 1, r.width, first, past, ou, ov))
  {
    hide Request.Valid, RowsInk;
  }

  lemma LastSilent(r: Request, y: int, z: int, first: int, past: int)
    requires r.Valid() && r.row0 <= y < z <= r.row0 + |r.source| && SilentRows(r, y, z, first, past)
    ensures SilentRows(r, y, z - 1, first, past) && Silent(r, z - 1, 0, r.width, first, past)
  {
    hide Request.Valid, Silent;
  }

  lemma EmptySum(r: Request, y: int, first: int, past: int, ou: int, ov: int)
    requires r.Valid() && r.row0 <= y < r.row0 + |r.source|
    ensures RowsInk(r, y, 0, first, past, ou, ov) == NOTHING
  {
    hide Request.Valid;
  }

  lemma RunColumns(r: Request, y: int, first: int, past: int)
    requires r.Valid() && IsRow(r, y)
    ensures var run := RunOf(r, y, first, past); run.Columns? ==> 0 <= run.x0 <= run.x1 < r.width
  {
    hide Request.Valid, MappedRow, TopEdge, BottomEdge, Level, Solved;
  }

  lemma RunMisses(r: Request, x: int, y: int, first: int, past: int)
    requires r.Valid() && IsRow(r, y) && r.Inside(x, y) && Straight(r, y) && !Level(r, y)
    requires !RunOf(r, y, first, past).Has(x)
    ensures !CentreInside(r, r.Centre(x, y), first, past)
  {
    hide Request.Valid, Straight, Level, RunBetween, TopEdge, BottomEdge, LeftEdge, RightEdge;
    if CentreInside(r, r.Centre(x, y), first, past) {
      RunKept(r, x, y, TopEdge(r, first), BottomEdge(r, past));
    }
  }

  /** The run of columns of one source row; a straight row has no other centre inside the widened chunk. */
  method ColumnRun(r: Request, y: int, first: int, past: int) returns (run: Run)
    requires r.Valid() && IsRow(r, y)
    ensures run == RunOf(r, y, first, past)
    ensures run.Columns? ==> 0 <= run.x0 <= run.x1 < r.width
    ensures Straight(r, y) && !Level(r, y) ==>
      forall x :: 0 <= x < r.width && r.Inside(x, y) && !run.Has(x) ==> !CentreInside(r, r.Centre(x, y), first, past)
  {
    hide Request.Valid, MappedRow, TopEdge, BottomEdge, LeftEdge, RightEdge, Straight, Abs, Min, Max, Slacked;
    RunColumns(r, y, first, past);
    forall x | Straight(r, y) && !Level(r, y) && r.Inside(x, y) && !RunOf(r, y, first, past).Has(x)
      ensures !CentreInside(r, r.Centre(x, y), first, past)
    {
      RunMisses(r, x, y, first, past);
    }
    var vFirst, vLast := MappedRow(r, 0, y), MappedRow(r, r.width - 1, y);
    var vLo, vHi := TopEdge(r, first), BottomEdge(r, past);
    if Abs(vLast - vFirst) > LEVEL {
      var slope := Slope(r, y);
      var a, b := (vLo - vFirst) / slope, (vHi - vFirst) / slope;
      return Slacked(r.width, Min(a, b), Max(a, b));
    } else if vFirst < vLo || vFirst > vHi {
      return Skip;
    }
    return Columns(0, r.width - 1);
  }

  lemma PixelStep(r: Request, x: nat, y: int, c: Cell, first: int, past: int, u: int, ov: int)
    requires r.Valid() && r.row0 <= y < r.row0 + |r.source| && x < r.width
    ensures c.Add(RowsInk(r, y, x, first, past, u, ov)).Add(PixelInk(r, x, y, first, past, u, ov))
         == c.Add(RowsInk(r, y, x + 1, first, past, u, ov))
  {
    hide Request.Valid, PixelInk;
    AddPlus(c, RowsInk(r, y, x, first, past, u, ov), PixelInk(r, x, y, first, past, u, ov));
  }

  /** No column outside the run is visited. */
  lemma OutsideRun(r: Request, y: int, first: int, past: int)
    requires r.Valid() && IsRow(r, y)
    ensures match RunOf(r, y, first, past)
      case Skip => Silent(r, y, 0, r.width, first, past)
      case Columns(x0, x1) =>
        (0 <= x0 <= r.width ==> Silent(r, y, 0, x0, first, past))
        && (0 <= x1 < r.width ==> Silent(r, y, x1 + 1, r.width, first, past))
  {
    hide Request.Valid, RunOf, InRows, CentreInside;
  }

  /** What one source row leaves on every cell of the chunk. */
  method VisitRow(r: Request, y: int, begin: int, end: int, cells: array2<Cell>)
    requires r.Valid() && IsChunk(r, begin, end, cells) && IsRow(r, y)
    requires InRows(r, y, r.outputRow0 + begin, r.outputRow0 + end)
    modifies cells
    ensures forall k, u :: 0 <= k < r.outputRows && 0 <= u < r.outputWidth ==>
      cells[k, u] == if InChunk(r, begin, end, k, u)
        then old(cells[k, u]).Add(RowsInk(r, y, r.width, r.outputRow0 + begin, r.outputRow0 + end, u, r.outputRow0 + k))
        else old(cells[k, u])
  {
    hide Request.Valid, PixelInk, RowsInk, Silent, InRows, RunOf, Cell.Add, Straight, Level, CentreInside;
    var first, past := r.outputRow0 + begin, r.outputRow0 + end;
    var run := ColumnRun(r, y, first, past);
    var begun := if run.Columns? then run.x0 else r.width;
    OutsideRun(r, y, first, past);
    forall k, u | InChunk(r, begin, end, k, u)
      ensures old(cells[k, u]).Add(RowsInk(r, y, begun, first, past, u, r.outputRow0 + k)) == old(cells[k, u])
    {
      SkippedColumns(r, y, 0, begun, first, past, u, r.outputRow0 + k);
      EmptySum(r, y, first, past, u, r.outputRow0 + k);
      AddNothing(old(cells[k, u]));
    }
    if run.Skip? { return; }
    var x := run.x0;
    while x <= run.x1
      invariant run.x0 <= x <= run.x1 + 1
      invariant forall k, u :: 0 <= k < r.outputRows && 0 <= u < r.outputWidth ==>
        cells[k, u] == if InChunk(r, begin, end, k, u)
          then old(cells[k, u]).Add(RowsInk(r, y, x, first, past, u, r.outputRow0 + k)) else old(cells[k, u])
    {
      VisitPixel(r, x, y, begin, end, cells);
      forall k, u | InChunk(r, begin, end, k, u)
        ensures old(cells[k, u]).Add(RowsInk(r, y, x, first, past, u, r.outputRow0 + k))
            .Add(PixelInk(r, x, y, first, past, u, r.outputRow0 + k))
          == old(cells[k, u]).Add(RowsInk(r, y, x + 1, first, past, u, r.outputRow0 + k))
      {
        PixelStep(r, x, y, old(cells[k, u]), first, past, u, r.outputRow0 + k);
      }
      x := x + 1;
    }
    forall k, u | InChunk(r, begin, end, k, u)
      ensures RowsInk(r, y, r.width, first, past, u, r.outputRow0 + k)
        == RowsInk(r, y, run.x1 + 1, first, past, u, r.outputRow0 + k)
    {
      SkippedColumns(r, y, run.x1 + 1, r.width, first, past, u, r.outputRow0 + k);
    }
  }

  lemma AddStep(r: Request, y: int, c: Cell, first: int, past: int, u: int, ov: int)
    requires r.Valid() && r.row0 <= y < r.row0 + |r.source|
    ensures c.Add(ChunkInk(r, y, first, past, u, ov)).Add(RowsInk(r, y, r.width, first, past, u, ov))
         == c.Add(ChunkInk(r, y + 1, first, past, u, ov))
  {
    AllStep(r, y + 1, first, past, u, ov);
    AddPlus(c, ChunkInk(r, y, first, past, u, ov), RowsInk(r, y, r.width, first, past, u, ov));
  }

  lemma AddNothing(c: Cell)
    ensures c.Add(NOTHING) == c
  {}

  ghost predicate AllInRows(r: Request, firstRow: int, lastRow: int, first: int, past: int)
    requires r.Valid()
  {
    forall y :: firstRow <= y <= lastRow ==> InRows(r, y, first, past)
  }

  /** The chunk when no pixel of the rows before firstRow is visited: source rows firstRow to lastRow. */
  method VisitRows(r: Request, firstRow: int, lastRow: int, begin: int, end: int, cells: array2<Cell>)
    requires r.Valid() && IsChunk(r, begin, end, cells) && r.row0 <= firstRow <= lastRow < r.row0 + |r.source|
      && r.width > 0
    requires SilentRows(r, r.row0, firstRow, r.outputRow0 + begin, r.outputRow0 + end)
    requires AllInRows(r, firstRow, lastRow, r.outputRow0 + begin, r.outputRow0 + end)
    modifies cells
    ensures forall k, u :: 0 <= k < r.outputRows && 0 <= u < r.outputWidth ==>
      cells[k, u] == if InChunk(r, begin, end, k, u)
        then old(cells[k, u]).Add(ChunkInk(r, lastRow + 1, r.outputRow0 + begin, r.outputRow0 + end, u,
            r.outputRow0 + k))
        else old(cells[k, u])
  {
    hide Request.Valid, RowsInk, ChunkInk, SilentRows, Cell.Add, InRows;
    ghost var first, past := r.outputRow0 + begin, r.outputRow0 + end;
    forall k, u | InChunk(r, begin, end, k, u)
      ensures old(cells[k, u]).Add(ChunkInk(r, firstRow, first, past, u, r.outputRow0 + k)) == old(cells[k, u])
    {
      SkippedRows(r, r.row0, firstRow, first, past, u, r.outputRow0 + k);
      NoRowsYet(r, first, past, u, r.outputRow0 + k);
      AddNothing(old(cells[k, u]));
    }
    var y := firstRow;
    while y <= lastRow
      invariant firstRow <= y <= lastRow + 1
      invariant forall k, u :: 0 <= k < r.outputRows && 0 <= u < r.outputWidth ==>
        cells[k, u] == if InChunk(r, begin, end, k, u)
          then old(cells[k, u]).Add(ChunkInk(r, y, first, past, u, r.outputRow0 + k)) else old(cells[k, u])
    {
      VisitRow(r, y, begin, end, cells);
      forall k, u | InChunk(r, begin, end, k, u)
        ensures old(cells[k, u]).Add(ChunkInk(r, y, first, past, u, r.outputRow0 + k))
            .Add(RowsInk(r, y, r.width, first, past, u, r.outputRow0 + k))
          == old(cells[k, u]).Add(ChunkInk(r, y + 1, first, past, u, r.outputRow0 + k))
      {
        AddStep(r, y, old(cells[k, u]), first, past, u, r.outputRow0 + k);
      }
      y := y + 1;
    }
  }

  lemma NoRowsYet(r: Request, first: int, past: int, ou: int, ov: int)
    requires r.Valid()
    ensures ChunkInk(r, r.row0, first, past, ou, ov) == NOTHING
  {
    hide Request.Valid;
  }

  /** The rows around the visited ones are silent. */
  lemma OuterRows(r: Request, first: int, past: int, firstRow: int, lastRow: int)
    requires r.Valid()
    requires firstRow == RowsFrom(r, SourceRange(r, first, past)) && lastRow == RowsTo(r, SourceRange(r, first, past))
    ensures r.row0 <= firstRow && lastRow < r.row0 + |r.source|
    ensures AllInRows(r, firstRow, lastRow, first, past)
    ensures firstRow <= lastRow ==>
      SilentRows(r, r.row0, firstRow, first, past) && SilentRows(r, lastRow + 1, r.row0 + |r.source|, first, past)
    ensures firstRow > lastRow ==> SilentRows(r, r.row0, r.row0 + |r.source|, first, past)
  {
    hide Request.Valid, SourceRange, RunOf, CentreInside;
  }

  /** The rows that the corners of the widened chunk map back to. */
  method CornerRange(r: Request, first: int, past: int) returns (range: Range)
    requires r.Valid()
    ensures range == SourceRange(r, first, past)
  {
    hide Request.Valid, Back, BackRow, TopEdge, BottomEdge, LeftEdge, RightEdge, Widen;
    var corners := Corners(r, first, past);
    ghost var rows := BackRows(Back(r), corners);
    range := Unset;
    for i := 0 to 4
      invariant range == RangeOf(rows[..i])
    {
      range := Widen(range, BackRow(Back(r), corners[i]));
      assert rows[..i + 1][..i] == rows[..i];
    }
    assert rows[..4] == rows;
  }

  lemma ChunkSilent(r: Request, y: int, z: int, begin: int, end: int)
    requires r.Valid() && r.row0 <= y <= z <= r.row0 + |r.source|
    requires SilentRows(r, y, z, r.outputRow0 + begin, r.outputRow0 + end)
    ensures forall k, u :: InChunk(r, begin, end, k, u) ==>
      ChunkInk(r, z, r.outputRow0 + begin, r.outputRow0 + end, u, r.outputRow0 + k)
      == ChunkInk(r, y, r.outputRow0 + begin, r.outputRow0 + end, u, r.outputRow0 + k)
  {
    hide Request.Valid, ChunkInk, SilentRows;
    var first, past := r.outputRow0 + begin, r.outputRow0 + end;
    forall k, u | InChunk(r, begin, end, k, u)
      ensures ChunkInk(r, z, first, past, u, r.outputRow0 + k) == ChunkInk(r, y, first, past, u, r.outputRow0 + k)
    {
      SkippedRows(r, y, z, first, past, u, r.outputRow0 + k);
    }
  }

  lemma ChunkEmpty(r: Request, begin: int, end: int)
    requires r.Valid()
    ensures forall k, u :: InChunk(r, begin, end, k, u) ==>
      ChunkInk(r, r.row0, r.outputRow0 + begin, r.outputRow0 + end, u, r.outputRow0 + k) == NOTHING
    ensures forall c: Cell :: c.Add(NOTHING) == c
  {
    hide Request.Valid, ChunkInk;
    forall k, u | InChunk(r, begin, end, k, u)
      ensures ChunkInk(r, r.row0, r.outputRow0 + begin, r.outputRow0 + end, u, r.outputRow0 + k) == NOTHING
    {
      NoRowsYet(r, r.outputRow0 + begin, r.outputRow0 + end, u, r.outputRow0 + k);
    }
  }

  lemma FrameNotEmpty(r: Request)
    requires r.Valid()
    ensures r.width > 0 && |r.source| > 0
  {}

  /** One chunk of output rows: every cell receives the sum over the visited pixels, the other rows keep theirs. */
  method Chunk(r: Request, begin: int, end: int, cells: array2<Cell>)
    requires r.Valid() && IsChunk(r, begin, end, cells)
    modifies cells
    ensures forall k, u :: 0 <= k < r.outputRows && 0 <= u < r.outputWidth ==>
      cells[k, u] == if InChunk(r, begin, end, k, u)
        then old(cells[k, u]).Add(BandInk(r, r.outputRow0 + begin, r.outputRow0 + end, u, r.outputRow0 + k))
        else old(cells[k, u])
  {
    hide Request.Valid, ChunkInk, SilentRows, SourceRange, RowsFrom, RowsTo, InRows, Cell.Add, InChunk;
    FrameNotEmpty(r);
    var n, first, past := r.row0 + |r.source|, r.outputRow0 + begin, r.outputRow0 + end;
    var range := CornerRange(r, first, past);
    var firstRow, lastRow := RowsFrom(r, range), RowsTo(r, range);
    OuterRows(r, first, past, firstRow, lastRow);
    if firstRow <= lastRow {
      VisitRows(r, firstRow, lastRow, begin, end, cells);
      ChunkSilent(r, lastRow + 1, n, begin, end);
    } else {
      ChunkSilent(r, r.row0, n, begin, end);
      ChunkEmpty(r, begin, end);
    }
  }

  /** What the chunk of rows [first, past) adds up for one output pixel. */
  function BandInk(r: Request, first: int, past: int, ou: int, ov: int): (ink: Ink)
    requires r.Valid()
  {
    ChunkInk(r, r.row0 + |r.source|, first, past, ou, ov)
  }

  /** Every source pixel's ink on one output pixel. */
  function NaiveInk(r: Request, ou: int, ov: int): Ink
    requires r.Valid()
  {
    r.AllInk(r.row0 + |r.source|, ou, ov)
  }

  // ----- nothing is lost under a gentle map -----

  lemma {:induction false} RowIsWhole(r: Request, y: int, n: nat, first: int, past: int, ou: int, ov: int)
    requires r.Valid() && Gentle(r) && r.row0 <= y < r.row0 + |r.source| && n <= r.width
    requires 0 <= ou < r.outputWidth && first <= ov < past && ChunkOf(r, first, past)
    ensures RowsInk(r, y, n, first, past, ou, ov) == r.RowInk(y, n, ou, ov)
  {
    hide Request.Valid, Gentle, Visited, Request.DropInk;
    if n > 0 {
      RowIsWhole(r, y, n - 1, first, past, ou, ov);
      if !Visited(r, n - 1, y, first, past) {
        SkippedIsUnreached(r, n - 1, y, first, past);
      }
    }
  }

  lemma {:induction false} ChunkIsWhole(r: Request, y: int, first: int, past: int, ou: int, ov: int)
    requires r.Valid() && Gentle(r) && r.row0 <= y <= r.row0 + |r.source|
    requires 0 <= ou < r.outputWidth && first <= ov < past && ChunkOf(r, first, past)
    ensures ChunkInk(r, y, first, past, ou, ov) == r.AllInk(y, ou, ov)
    decreases y
  {
    hide Request.Valid, Gentle, RowsInk, Request.RowInk;
    if y > r.row0 {
      ChunkIsWhole(r, y - 1, first, past, ou, ov);
      RowIsWhole(r, y - 1, r.width, first, past, ou, ov);
    }
  }

  /** Under a gentle map the visited pixels add up to the naive sum over all sources. */
  lemma GentleBandIsWhole(r: Request, first: int, past: int, ou: int, ov: int)
    requires r.Valid() && Gentle(r) && 0 <= ou < r.outputWidth && first <= ov < past && ChunkOf(r, first, past)
    ensures BandInk(r, first, past, ou, ov) == NaiveInk(r, ou, ov)
  {
    hide Request.Valid, Gentle, ChunkInk, Request.AllInk;
    ChunkIsWhole(r, r.row0 + |r.source|, first, past, ou, ov);
  }

  // ----- the band -----

  /** The rows [ChunkBegin, ChunkEnd) of the chunk that row k of the band belongs to. */
  function ChunkBegin(k: nat, grain: nat): nat
    requires grain > 0
  {
    k - k % grain
  }

  function ChunkEnd(r: Request, k: nat, grain: nat): int
    requires grain > 0
  {
    Smaller(ChunkBegin(k, grain) + grain, r.outputRows)
  }

  /** What the band adds up for cell (k, u): the sum over the pixels visited for the chunk of its row. */
  function CellInk(r: Request, grain: nat, k: nat, u: nat): (ink: Ink)
    requires r.Valid() && grain > 0
  {
    BandInk(r, r.outputRow0 + ChunkBegin(k, grain), r.outputRow0 + ChunkEnd(r, k, grain), u, r.outputRow0 + k)
  }

  /** Chunk number n starts at n grains. */
  lemma ChunkAt(r: Request, n: nat, begin: nat, k: nat, grain: nat)
    requires grain > 0 && begin == n * grain && begin <= k < begin + grain
    ensures ChunkBegin(k, grain) == begin && ChunkEnd(r, k, grain) == Smaller(begin + grain, r.outputRows)
  {
    Remainder(n, grain, k - begin);
  }

  lemma Remainder(n: nat, d: nat, m: nat)
    requires m < d
    ensures (n * d + m) % d == m
  {
    var q := (n * d + m) / d;
    assert n * d + m == q * d + (n * d + m) % d;
    if q < n {
      MulMonotone(q + 1, n, d);
    } else if q > n {
      MulMonotone(n + 1, q, d);
    }
  }

  /**
   What every cell of the band gains: the sum over the pixels visited for its chunk; under a gentle map, over all.
   */
  method BandOnReference(r: Request, grain: nat, cells: array2<Cell>)
    requires r.Valid() && grain > 0 && cells.Length0 == r.outputRows && cells.Length1 == r.outputWidth
    modifies cells
    ensures forall k: nat, u: nat :: k < r.outputRows && u < r.outputWidth ==>
      cells[k, u] == old(cells[k, u]).Add(CellInk(r, grain, k, u))
    ensures Gentle(r) ==> forall k: nat, u: nat :: k < r.outputRows && u < r.outputWidth ==>
      cells[k, u] == old(cells[k, u]).Add(NaiveInk(r, u, r.outputRow0 + k))
  {
    hide Request.Valid, Gentle, BandInk, NaiveInk, Cell.Add, ChunkBegin, ChunkEnd;
    var begin: nat := 0;
    ghost var n: nat := 0;
    while begin < r.outputRows
      invariant begin <= r.outputRows && (begin < r.outputRows ==> begin == n * grain)
      invariant forall k: nat, u: nat :: k < r.outputRows && u < r.outputWidth ==>
        cells[k, u] == if k < begin then old(cells[k, u]).Add(CellInk(r, grain, k, u)) else old(cells[k, u])
    {
      var end := Smaller(begin + grain, r.outputRows);
      Chunk(r, begin, end, cells);
      forall k: nat | begin <= k < end
        ensures ChunkBegin(k, grain) == begin && ChunkEnd(r, k, grain) == end
      {
        ChunkAt(r, n, begin, k, grain);
      }
      assert (n + 1) * grain == n * grain + grain;
      begin, n := end, n + 1;
    }
    if Gentle(r) {
      forall k: nat, u: nat | k < r.outputRows && u < r.outputWidth
        ensures CellInk(r, grain, k, u) == NaiveInk(r, u, r.outputRow0 + k)
      {
        CellIsWhole(r, grain, k, u);
      }
    }
  }

  /** Under a gentle map the split into chunks does not matter: every cell gets the naive sum. */
  lemma CellIsWhole(r: Request, grain: nat, k: nat, u: nat)
    requires r.Valid() && Gentle(r) && grain > 0 && k < r.outputRows && u < r.outputWidth
    ensures CellInk(r, grain, k, u) == NaiveInk(r, u, r.outputRow0 + k)
  {
    ChunkHolds(r, k, grain);
    hide Request.Valid, Gentle, BandInk, NaiveInk, ChunkBegin, ChunkEnd;
    GentleBandIsWhole(r, r.outputRow0 + ChunkBegin(k, grain), r.outputRow0 + ChunkEnd(r, k, grain), u,
        r.outputRow0 + k);
  }

  lemma ChunkHolds(r: Request, k: nat, grain: nat)
    requires grain > 0 && k < r.outputRows
    ensures ChunkBegin(k, grain) <= k < ChunkEnd(r, k, grain) <= r.outputRows && ChunkBegin(k, grain) >= 0
  {}
}
