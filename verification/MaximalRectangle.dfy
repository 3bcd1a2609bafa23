/**
 The maximal-rectangle scan of benchmarks/autocrop_histogram.py: a monotone stack over the bar
 heights of one mask row, swept over all rows.  Candidates are compared as Python compares tuples.
 */
module MaximalRectangle {
  import opened Wrappers

  /** The candidate tuple (area, top, left, bottom, right); bottom and right are exclusive. */
  datatype Rect = Rect(area: int, top: int, left: int, bottom: int, right: int)

  /** The tuple comparison `a > b`. */
  predicate Greater(a: Rect, b: Rect) {
    if a.area != b.area then a.area > b.area
    else if a.top != b.top then a.top > b.top
    else if a.left != b.left then a.left > b.left
    else if a.bottom != b.bottom then a.bottom > b.bottom
    else a.right > b.right
  }

  predicate AtLeast(a: Rect, b: Rect) {
    a == b || Greater(a, b)
  }

  /** `best` beats (or equals) `r`; None beats nothing. */
  predicate Beats(best: Option<Rect>, r: Rect) {
    best.Some? && AtLeast(best.value, r)
  }

  /** The update `if best is None or candidate > best: best = candidate`. */
  function Better(best: Option<Rect>, candidate: Rect): (r: Option<Rect>)
    ensures r == Some(candidate) || r == best
    ensures Beats(r, candidate)
    ensures best.Some? ==> Beats(r, best.value)
  {
    if best.None? || Greater(candidate, best.value) then Some(candidate) else best
  }

  // ----- one row -----

  /** A bar of height `h` over columns [l, r) fits under the heights. */
  ghost predicate Fits(heights: seq<nat>, l: int, r: int, h: int) {
    0 <= l < r <= |heights| && 1 <= h && forall i :: l <= i < r ==> heights[i] >= h
  }

  /** The rectangle such a bar stands for when its last row is `row`. */
  function BarRect(row: int, l: int, r: int, h: int): Rect {
    Rect(h * (r - l), row - h + 1, l, row + 1, r)
  }

  ghost predicate FitsSome(heights: seq<nat>, row: int, rect: Rect) {
    exists l, r, h :: Fits(heights, l, r, h) && rect == BarRect(row, l, r, h)
  }

  lemma AreaMonotone(w: int, h: int, w': int, h': int)
    requires 1 <= w <= w' && 1 <= h <= h'
    ensures h' * w' >= h * w
    ensures w < w' || h < h' ==> h' * w' > h * w
  {
    assert h' * w' == h * w + (h' - h) * w' + h * (w' - w);
  }

  /** A wider and taller bar is at least as great. */
  lemma BarDominates(row: int, l: int, r: int, h: int, l': int, r': int, h': int)
    requires l' <= l < r <= r' && 1 <= h <= h'
    ensures AtLeast(BarRect(row, l', r', h'), BarRect(row, l, r, h))
  {
    AreaMonotone(r - l, h, r' - l', h');
  }

  /** An open bar: its first column and its height. */
  type Bar = (int, int)

  /** Bars are nested: columns and heights strictly increase, and each bar fits up to column `x`. */
  ghost predicate StackFits(heights: seq<nat>, x: int, stack: seq<Bar>) {
    && 0 <= x <= |heights|
    && (forall i, j :: 0 <= i < j < |stack| ==> stack[i].0 < stack[j].0 && stack[i].1 < stack[j].1)
    && (forall i :: 0 <= i < |stack| ==> Fits(heights, stack[i].0, x, stack[i].1))
  }

  /** A bar that fits up to the scanned column x. */
  ghost predicate Open(heights: seq<nat>, x: int, l: int, h: int) {
    Fits(heights, l, x, h)
  }

  /** The bar [l, x) x h lies inside a stacked bar. */
  ghost predicate Inside(stack: seq<Bar>, l: int, h: int) {
    exists i :: 0 <= i < |stack| && stack[i].0 <= l && stack[i].1 >= h
  }

  /** Every bar that is still open at column `x` lies inside a stacked one. */
  ghost predicate StackCovers(heights: seq<nat>, x: int, stack: seq<Bar>) {
    forall l, h :: Open(heights, x, l, h) ==> Inside(stack, l, h)
  }

  /** The bar [l, r) x h is closed before column x: it ends earlier, or cannot reach x. */
  ghost predicate Closed(heights: seq<nat>, l: int, r: int, h: int, x: int) {
    Fits(heights, l, r, h) && r <= x && !Fits(heights, l, x, h)
  }

  ghost predicate BeatsClosed(heights: seq<nat>, row: int, x: int, best: Option<Rect>) {
    forall l, r, h :: Closed(heights, l, r, h, x) ==> Beats(best, BarRect(row, l, r, h))
  }

  /** The bars popped at column x, before[kept..], were taller than the new height and are beaten. */
  ghost predicate Popped(row: int, x: int, height: nat, before: seq<Bar>, kept: nat, best: Option<Rect>) {
    forall i :: kept <= i < |before| ==> before[i].1 > height && Beats(best, BarRect(row, before[i].0, x, before[i].1))
  }

  ghost predicate NoWorse(best0: Option<Rect>, best: Option<Rect>) {
    best0.Some? ==> Beats(best, best0.value)
  }

  ghost predicate Sound(heights: seq<nat>, row: int, best: Option<Rect>) {
    best.Some? ==> FitsSome(heights, row, best.value)
  }

  /** What the scan knows at column x; past the last column every bar is closed. */
  ghost predicate Scanned(heights: seq<nat>, row: int, x: int, stack: seq<Bar>, best: Option<Rect>) {
    if x <= |heights|
    then StackFits(heights, x, stack) && StackCovers(heights, x, stack) && BeatsClosed(heights, row, x, best)
    else BeatsAll(heights, row, best)
  }

  ghost predicate BeatsAll(heights: seq<nat>, row: int, best: Option<Rect>) {
    forall l, r, h :: Fits(heights, l, r, h) ==> Beats(best, BarRect(row, l, r, h))
  }

  /**
   The greatest bar of one row.  `heights` holds, for each column, the run of true cells ending
   in row `row`.
   */
  method BaselineHistogram(heights: seq<nat>, row: int) returns (best: Option<Rect>)
    ensures Sound(heights, row, best)
    ensures BeatsAll(heights, row, best)
  {
    StartScan(heights, row);
    hide AtLeast, Beats, StackCovers, BeatsClosed, BarRect, FitsSome;
    best := None;
    var stack: seq<Bar> := [];
    var width := |heights|;
    for x := 0 to width + 1
      invariant Scanned(heights, row, x, stack, best)
      invariant Sound(heights, row, best)
    {
      var height := if x < width then heights[x] else 0;
      var start := x;
      ghost var before, best0 := stack, best;
      while |stack| > 0 && stack[|stack| - 1].1 > height
        invariant |stack| <= |before| && stack == before[..|stack|]
        invariant start == if |stack| == |before| then x else before[|stack|].0
        invariant Popped(row, x, height, before, |stack|, best)
        invariant Sound(heights, row, best) && NoWorse(best0, best)
      {
        var (left, previousHeight) := stack[|stack| - 1];
        stack := stack[..|stack| - 1];
        var candidate := BarRect(row, left, x, previousHeight);
        PopStep(heights, row, x, height, before, |stack|, best0, best, candidate);
        best := Better(best, candidate);
        start := left;
      }
      ghost var kept := |stack|;
      if height > 0 && (|stack| == 0 || stack[|stack| - 1].1 < height) {
        stack := stack + [(start, height)];
      }
      PoppedBeatClosed(heights, row, x, height, before, kept, best0, best);
      if x < width {
        AdvanceStack(heights, x, before, kept, start, stack);
      }
    }
  }

  lemma StartScan(heights: seq<nat>, row: int)
    ensures Scanned(heights, row, 0, [], None) && Sound(heights, row, None)
    ensures forall best :: NoWorse(best, best)
  {}

  lemma PopStep(heights: seq<nat>, row: int, x: int, height: nat, before: seq<Bar>, kept: nat, best0: Option<Rect>,
                best: Option<Rect>, candidate: Rect)
    requires StackFits(heights, x, before) && kept < |before| && before[kept].1 > height && NoWorse(best0, best)
    requires Popped(row, x, height, before, kept + 1, best) && Sound(heights, row, best)
    requires candidate == BarRect(row, before[kept].0, x, before[kept].1)
    ensures Popped(row, x, height, before, kept, Better(best, candidate))
      && Sound(heights, row, Better(best, candidate))
    ensures NoWorse(best0, Better(best, candidate))
  {
    assert Fits(heights, before[kept].0, x, before[kept].1);
  }

  /** After the pops of column x, every bar that ends at or before x and cannot include column x is beaten. */
  lemma PoppedBeatClosed(heights: seq<nat>, row: int, x: int, height: nat, before: seq<Bar>, kept: nat,
                         best0: Option<Rect>, best: Option<Rect>)
    requires 0 <= x <= |heights| && height == (if x < |heights| then heights[x] else 0)
    requires StackFits(heights, x, before) && StackCovers(heights, x, before) && kept <= |before|
    requires kept > 0 ==> before[kept - 1].1 <= height
    requires Popped(row, x, height, before, kept, best)
    requires BeatsClosed(heights, row, x, best0) && NoWorse(best0, best)
    ensures x < |heights| ==> BeatsClosed(heights, row, x + 1, best)
    ensures x == |heights| ==> BeatsAll(heights, row, best)
  {
    forall l, r, h | Fits(heights, l, r, h) && r <= x && (x < |heights| ==> !Fits(heights, l, x + 1, h))
      ensures Beats(best, BarRect(row, l, r, h))
    {
      if Open(heights, x, l, h) {
        assert Inside(before, l, h);
        var i :| 0 <= i < |before| && before[i].0 <= l && before[i].1 >= h;
        BarDominates(row, l, r, h, before[i].0, x, before[i].1);
      } else {
        assert Closed(heights, l, r, h, x);
      }
    }
  }

  /** Popping and pushing keeps the stack nested and covering. */
  lemma AdvanceStack(heights: seq<nat>, x: int, before: seq<Bar>, kept: nat, start: int, after: seq<Bar>)
    requires 0 <= x < |heights| && kept <= |before|
    requires StackFits(heights, x, before) && StackCovers(heights, x, before)
    requires start == if kept == |before| then x else before[kept].0
    requires forall i :: kept <= i < |before| ==> before[i].1 > heights[x]
    requires kept > 0 ==> before[kept - 1].1 <= heights[x]
    requires after == if heights[x] > 0 && (kept == 0 || before[kept - 1].1 < heights[x])
                      then before[..kept] + [(start, heights[x])] else before[..kept]
    ensures StackFits(heights, x + 1, after) && StackCovers(heights, x + 1, after)
  {
    assert kept < |before| ==> Fits(heights, before[kept].0, x, before[kept].1);
    forall i | 0 <= i < |after|
      ensures Fits(heights, after[i].0, x + 1, after[i].1)
    {
      if i < kept {
        assert Fits(heights, before[i].0, x, before[i].1) && before[i].1 <= heights[x];
      }
    }
    CoverStep(heights, x, before, kept, start, after);
  }

  lemma CoverStep(heights: seq<nat>, x: int, before: seq<Bar>, kept: nat, start: int, after: seq<Bar>)
    requires 0 <= x < |heights| && kept <= |before|
    requires StackFits(heights, x, before) && StackCovers(heights, x, before)
    requires start == if kept == |before| then x else before[kept].0
    requires kept > 0 ==> before[kept - 1].1 <= heights[x]
    requires after == if heights[x] > 0 && (kept == 0 || before[kept - 1].1 < heights[x])
                      then before[..kept] + [(start, heights[x])] else before[..kept]
    ensures StackCovers(heights, x + 1, after)
  {
    forall l, h | Open(heights, x + 1, l, h)
      ensures Inside(after, l, h)
    {
      assert h <= heights[x];
      var last := |after| - 1;
      assert after[last].1 == heights[x];
      if l < x {
        assert Open(heights, x, l, h) && Inside(before, l, h);
        var i :| 0 <= i < |before| && before[i].0 <= l && before[i].1 >= h;
        if i < kept {
          assert after[i] == before[i];
        } else {
          assert after[last].0 <= before[i].0;
        }
      }
    }
  }

  // ----- the whole mask -----

  type Mask = seq<seq<bool>>

  ghost predicate Rectangular(mask: Mask, width: nat) {
    forall y :: 0 <= y < |mask| ==> |mask[y]| == width
  }

  /** `r` is a non-empty rectangle of true cells within the first `rows` rows, and its area is its cell count. */
  ghost predicate AllTrue(mask: Mask, rows: nat, width: nat, r: Rect)
    requires rows <= |mask| && Rectangular(mask, width)
  {
    && 0 <= r.top < r.bottom <= rows && 0 <= r.left < r.right <= width
    && r.area == (r.bottom - r.top) * (r.right - r.left)
    && forall y, x :: r.top <= y < r.bottom && r.left <= x < r.right ==> mask[y][x]
  }

  /** The run of true cells of column x that ends just above row `rows`. */
  function Run(mask: Mask, rows: nat, x: nat): (n: nat)
    requires rows <= |mask| && forall y :: 0 <= y < rows ==> x < |mask[y]|
    ensures n <= rows
    ensures forall y :: rows - n <= y < rows ==> mask[y][x]
    ensures n < rows ==> !mask[rows - n - 1][x]
  {
    if rows > 0 && mask[rows - 1][x] then Run(mask, rows - 1, x) + 1 else 0
  }

  ghost predicate HeightsAt(mask: Mask, width: nat, rows: nat, heights: seq<nat>)
    requires rows <= |mask| && Rectangular(mask, width)
  {
    |heights| == width && forall x :: 0 <= x < width ==> heights[x] == Run(mask, rows, x)
  }

  /** The true rectangles that end in row `row` are exactly the bars under the heights of that row. */
  lemma BarsAreRectangles(mask: Mask, width: nat, row: nat, heights: seq<nat>, r: Rect)
    requires row < |mask| && Rectangular(mask, width) && HeightsAt(mask, width, row + 1, heights)
    ensures r.bottom == row + 1 && AllTrue(mask, row + 1, width, r) <==> FitsSome(heights, row, r)
  {
    if r.bottom == row + 1 && AllTrue(mask, row + 1, width, r) {
      var h := r.bottom - r.top;
      forall x | r.left <= x < r.right
        ensures heights[x] >= h
      {
        var blocked := row - Run(mask, row + 1, x);
        assert blocked >= 0 ==> !mask[blocked][x];
      }
      assert Fits(heights, r.left, r.right, h) && r == BarRect(row, r.left, r.right, h);
    }
    if FitsSome(heights, row, r) {
      var l, e, h :| Fits(heights, l, e, h) && r == BarRect(row, l, e, h);
      assert heights[l] >= h && Run(mask, row + 1, l) <= row + 1;
      forall y, x | r.top <= y < r.bottom && r.left <= x < r.right
        ensures mask[y][x]
      {
        assert heights[x] >= h && Run(mask, row + 1, x) >= h;
      }
    }
  }

  /** `best` is the greatest true rectangle of the first `rows` rows. */
  ghost predicate IsGreatest(mask: Mask, rows: nat, width: nat, best: Option<Rect>)
    requires rows <= |mask| && Rectangular(mask, width)
  {
    && (best.Some? ==> AllTrue(mask, rows, width, best.value))
    && (forall r :: AllTrue(mask, rows, width, r) ==> Beats(best, r))
  }

  lemma NoRows(mask: Mask, width: nat, heights: seq<nat>)
    requires Rectangular(mask, width) && heights == seq(width, _ => 0)
    ensures HeightsAt(mask, width, 0, heights) && IsGreatest(mask, 0, width, None)
  {}

  lemma HeightsLength(mask: Mask, width: nat, y: nat, heights: seq<nat>)
    requires Rectangular(mask, width) && y <= |mask| && HeightsAt(mask, width, y, heights)
    ensures |heights| == width
  {}

  lemma NextHeights(mask: Mask, width: nat, y: nat, before: seq<nat>, heights: seq<nat>)
    requires Rectangular(mask, width) && y < |mask| && HeightsAt(mask, width, y, before) && |heights| == width
    requires forall x :: 0 <= x < width ==> x < |before| && heights[x] == if mask[y][x] then before[x] + 1 else 0
    ensures HeightsAt(mask, width, y + 1, heights)
  {}

  lemma NoneMeansNone(mask: Mask, width: nat, best: Option<Rect>)
    requires Rectangular(mask, width) && IsGreatest(mask, |mask|, width, best)
    ensures best.None? <==> forall y, x :: 0 <= y < |mask| && 0 <= x < width ==> !mask[y][x]
  {
    if best.None? {
      forall y, x | 0 <= y < |mask| && 0 <= x < width
        ensures !mask[y][x]
      {
        if mask[y][x] {
          assert AllTrue(mask, |mask|, width, Rect(1, y, x, y + 1, x + 1));
        }
      }
    } else {
      assert mask[best.value.top][best.value.left];
    }
  }

  /**
   The greatest all-true rectangle of a mask in tuple order, and None exactly when no cell is true.
   `width` is the column count (`mask.shape[1]`), which a mask without rows still has.
   */
  method ScanMask(mask: Mask, width: nat) returns (best: Option<Rect>)
    requires Rectangular(mask, width)
    ensures IsGreatest(mask, |mask|, width, best)
    ensures best.None? <==> forall y, x :: 0 <= y < |mask| && 0 <= x < width ==> !mask[y][x]
  {
    hide IsGreatest, HeightsAt, Run, AllTrue;
    var heights: seq<nat> := seq(width, _ => 0);
    best := None;
    NoRows(mask, width, heights);
    for y := 0 to |mask|
      invariant HeightsAt(mask, width, y, heights)
      invariant IsGreatest(mask, y, width, best)
    {
      ghost var best0, heights0 := best, heights;
      assert |heights| == width by {
        HeightsLength(mask, width, y, heights);
      }
      heights := seq(width, x requires 0 <= x < width == |heights| == |mask[y]| =>
        if mask[y][x] then heights[x] + 1 else 0);
      var candidate := BaselineHistogram(heights, y);
      if candidate.Some? && (best.None? || Greater(candidate.value, best.value)) {
        best := candidate;
      }
      NextHeights(mask, width, y, heights0, heights);
      CombineRows(mask, width, y, heights, best0, candidate, best);
    }
    NoneMeansNone(mask, width, best);
  }

  lemma CombineRows(mask: Mask, width: nat, y: nat, heights: seq<nat>, best0: Option<Rect>, candidate: Option<Rect>,
                    best: Option<Rect>)
    requires y < |mask| && Rectangular(mask, width) && HeightsAt(mask, width, y + 1, heights)
    requires IsGreatest(mask, y, width, best0)
    requires Sound(heights, y, candidate) && BeatsAll(heights, y, candidate)
    requires best ==
      if candidate.Some? && (best0.None? || Greater(candidate.value, best0.value)) then candidate else best0
    ensures IsGreatest(mask, y + 1, width, best)
  {
    if candidate.Some? {
      BarsAreRectangles(mask, width, y, heights, candidate.value);
    }
    forall r | AllTrue(mask, y + 1, width, r)
      ensures Beats(best, r)
    {
      if r.bottom == y + 1 {
        BarsAreRectangles(mask, width, y, heights, r);
      } else {
        assert AllTrue(mask, y, width, r);
      }
    }
  }

  /** Two results that both satisfy the specification are the same tuple. */
  lemma GreatestIsUnique(mask: Mask, width: nat, a: Option<Rect>, b: Option<Rect>)
    requires Rectangular(mask, width)
    requires IsGreatest(mask, |mask|, width, a) && IsGreatest(mask, |mask|, width, b)
    ensures a == b
  {
    if a.Some? {
      assert Beats(b, a.value) && Beats(a, b.value);
    }
  }
}
