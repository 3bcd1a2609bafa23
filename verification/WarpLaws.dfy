/**
 What a warped sample is, apart from the loops of native/src/PortableKernels.cpp that compute it: the weighted sum of
 36 taps in any order, the same along a mirrored axis, and along each axis blind to the fraction of the other one.
 */
module WarpLaws {
  import opened Wrappers
  import opened PooledWindow
  import opened LanczosWarp
  import opened LanczosLaws
  import opened WarpPixels

  /** A sample and the product of its two weights. */
  datatype Tap = Tap(weight: real, neighbor: Float)

  function Fold(s: Support, taps: seq<Tap>): Support {
    if taps == [] then s
    else
      var last := taps[|taps| - 1];
      AddTap(Fold(s, taps[..|taps| - 1]), last.weight, last.neighbor)
  }

  // ----- any order of the taps -----

  lemma ExtendCommutes(range: Option<Range>, a: real, b: real)
    ensures Extend(Extend(range, a), b) == Extend(Extend(range, b), a)
  {}

  lemma TapsCommute(s: Support, a: Tap, b: Tap)
    ensures AddTap(AddTap(s, a.weight, a.neighbor), b.weight, b.neighbor)
      == AddTap(AddTap(s, b.weight, b.neighbor), a.weight, a.neighbor)
  {
    hide Extend;
    if a.neighbor.Fin? && b.neighbor.Fin? {
      ExtendCommutes(s.range, a.neighbor.value, b.neighbor.value);
    }
  }

  lemma {:induction false} MoveToEnd(s: Support, taps: seq<Tap>, i: nat)
    requires i < |taps|
    ensures Fold(s, taps) == AddTap(Fold(s, taps[..i] + taps[i + 1..]), taps[i].weight, taps[i].neighbor)
  {
    hide AddTap;
    var n := |taps| - 1;
    if i == n {
      assert taps[..i] + taps[i + 1..] == taps[..n];
    } else {
      var front, last := taps[..n], taps[n];
      MoveToEnd(s, front, i);
      var rest := front[..i] + front[i + 1..];
      assert taps[..i] + taps[i + 1..] == rest + [last];
      assert (rest + [last])[..|rest|] == rest;
      TapsCommute(Fold(s, rest), taps[i], last);
    }
  }

  /** The order of the taps does not matter. */
  lemma {:induction false} AnyOrder(s: Support, a: seq<Tap>, b: seq<Tap>)
    requires multiset(a) == multiset(b)
    ensures Fold(s, a) == Fold(s, b)
  {
    hide AddTap;
    SameLength(a, b);
    if a != [] {
      var n := |a| - 1;
      var last := a[n];
      assert a == a[..n] + [last] + [];
      assert last in multiset(a);
      var i :| 0 <= i < |b| && b[i] == last;
      var rest := b[..i] + b[i + 1..];
      assert b == b[..i] + [last] + b[i + 1..];
      WithoutOne(a, a[..n], [], last);
      WithoutOne(b, b[..i], b[i + 1..], last);
      assert a[..n] + [] == a[..n];
      AnyOrder(s, a[..n], rest);
      MoveToEnd(s, b, i);
    }
  }

  lemma WithoutOne(whole: seq<Tap>, front: seq<Tap>, back: seq<Tap>, t: Tap)
    requires whole == front + [t] + back
    ensures multiset(front + back) == multiset(whole) - multiset{t}
  {
    assert multiset(whole) == multiset(front) + multiset{t} + multiset(back);
  }

  lemma SameLength(a: seq<Tap>, b: seq<Tap>)
    requires multiset(a) == multiset(b)
    ensures |a| == |b|
  {
    assert |multiset(a)| == |a| && |multiset(b)| == |b|;
  }

  lemma {:induction false} FoldTwice(s: Support, a: seq<Tap>, b: seq<Tap>)
    ensures Fold(Fold(s, a), b) == Fold(s, a + b)
  {
    hide AddTap;
    if b == [] {
      assert a + b == a;
    } else {
      var n := |b| - 1;
      FoldTwice(s, a, b[..n]);
      assert (a + b)[..|a + b| - 1] == a + b[..n];
    }
  }

  // ----- the window as a list of taps -----

  /** A tap of one source row. */
  function RowTap(row: seq<Float>, xFloor: int, yWeight: real, xFraction: real, k: nat): Tap
    requires 0.0 <= xFraction < 1.0 && |row| >= 6 && 2 <= xFloor <= |row| - 3 && k < 6
  {
    Tap(yWeight * Weight(xFraction, k), row[TapIndex(xFloor, k, |row|)])
  }

  function RowList(row: seq<Float>, xFloor: int, yWeight: real, xFraction: real, n: nat): seq<Tap>
    requires 0.0 <= xFraction < 1.0 && |row| >= 6 && 2 <= xFloor <= |row| - 3 && n <= 6
  {
    seq(n, k requires 0 <= k < n => RowTap(row, xFloor, yWeight, xFraction, k))
  }

  lemma {:induction false} RowFold(row: seq<Float>, s: Support, xFloor: int, yWeight: real, xFraction: real, n: nat)
    requires 0.0 <= xFraction < 1.0 && |row| >= 6 && 2 <= xFloor <= |row| - 3 && n <= 6
    ensures RowTaps(row, s, xFloor, yWeight, xFraction, n) == Fold(s, RowList(row, xFloor, yWeight, xFraction, n))
  {
    hide Weight, AddTap, RowTap;
    var taps := RowList(row, xFloor, yWeight, xFraction, n);
    if n > 0 {
      RowFold(row, s, xFloor, yWeight, xFraction, n - 1);
      assert taps[..n - 1] == RowList(row, xFloor, yWeight, xFraction, n - 1);
      assert taps[n - 1] == RowTap(row, xFloor, yWeight, xFraction, n - 1);
      LastTap(row, RowTaps(row, s, xFloor, yWeight, xFraction, n - 1), s, xFloor, yWeight, xFraction, n);
    }
  }

  lemma LastTap(row: seq<Float>, before: Support, s: Support, xFloor: int, yWeight: real, xFraction: real, n: nat)
    requires 0.0 <= xFraction < 1.0 && |row| >= 6 && 2 <= xFloor <= |row| - 3 && 0 < n <= 6
    requires before == RowTaps(row, s, xFloor, yWeight, xFraction, n - 1)
    ensures var t := RowTap(row, xFloor, yWeight, xFraction, n - 1);
        RowTaps(row, s, xFloor, yWeight, xFraction, n) == AddTap(before, t.weight, t.neighbor)
  {
    hide Weight, Extend;
    NextTap(row, s, xFloor, yWeight, xFraction, n - 1, Weight(xFraction, n - 1));
  }

  // ----- mirrored columns -----

  lemma {:induction false} ReversedTaps(a: seq<Tap>, b: seq<Tap>)
    requires |a| == |b| && forall k :: 0 <= k < |a| ==> b[k] == a[|a| - 1 - k]
    ensures multiset(a) == multiset(b)
  {
    if a != [] {
      var n := |a| - 1;
      ReversedTaps(a[..n], b[1..]);
      assert a == a[..n] + [a[n]] && b == [b[0]] + b[1..];
    }
  }

  /** A row and its reverse, seen from both ends between two samples. */
  lemma MirroredRow(row: seq<Float>, mirrored: seq<Float>, s: Support, xFloor: int, other: int, yWeight: real,
                    xFraction: real)
    requires |row| == |mirrored| >= 6 && forall i :: 0 <= i < |row| ==> mirrored[i] == row[|row| - 1 - i]
    requires 0.0 < xFraction < 1.0 && 2 <= xFloor <= |row| - 4 && other == |row| - 2 - xFloor
    ensures RowTaps(mirrored, s, other, yWeight, 1.0 - xFraction, 6) == RowTaps(row, s, xFloor, yWeight, xFraction, 6)
  {
    hide Weight, RowTaps, Fold;
    var a, b := RowList(row, xFloor, yWeight, xFraction, 6), RowList(mirrored, other, yWeight, 1.0 - xFraction, 6);
    forall k | 0 <= k < 6
      ensures b[k] == a[5 - k]
    {
      MirroredWeight(xFraction, 5 - k);
      assert TapIndex(other, k, |row|) == |row| - 1 - TapIndex(xFloor, 5 - k, |row|);
    }
    ReversedTaps(a, b);
    AnyOrder(s, a, b);
    RowFold(row, s, xFloor, yWeight, xFraction, 6);
    RowFold(mirrored, s, other, yWeight, 1.0 - xFraction, 6);
  }

  lemma {:induction false} NodeRow(row: seq<Float>, s: Support, xFloor: int, yWeight: real, n: nat)
    requires |row| >= 6 && 2 <= xFloor <= |row| - 3 && n <= 6
    ensures RowTaps(row, s, xFloor, yWeight, 0.0, n) == if n <= 2 then s else AddTap(s, yWeight, row[xFloor])
  {
    hide Weight, Extend;
    if n > 0 {
      NodeRow(row, s, xFloor, yWeight, n - 1);
      WeightsAtZero(n - 1);
      assert yWeight * 0.0 == 0.0 && yWeight * 1.0 == yWeight;
    }
  }

  ghost predicate ColumnsReversed(src: Source, mirrored: Source) {
    && src.Valid() && mirrored.Valid()
    && mirrored.width == src.width && mirrored.height == src.height && mirrored.domainScale == src.domainScale
    && (forall j, i :: 0 <= j < src.height && 0 <= i < src.width ==>
      mirrored.pixels[j][i] == src.pixels[j][src.width - 1 - i])
  }

  lemma {:induction false} MirroredWindow(src: Source, mirrored: Source, xFloor: int, other: int, yFloor: int,
                                          xFraction: real, fraction: real, yFraction: real, m: nat)
    requires ColumnsReversed(src, mirrored) && 0.0 <= xFraction < 1.0 && 0.0 <= yFraction < 1.0 && m <= 6
    requires 2 <= xFloor <= src.width - 3 && 2 <= other <= src.width - 3 && 2 <= yFloor <= src.height - 3
    requires if xFraction == 0.0 then fraction == 0.0 && other == src.width - 1 - xFloor
      else fraction == 1.0 - xFraction && other == src.width - 2 - xFloor
    ensures WindowTaps(mirrored, other, yFloor, fraction, yFraction, m)
      == WindowTaps(src, xFloor, yFloor, xFraction, yFraction, m)
  {
    hide Weight, RowTaps, AddTap;
    if m > 0 {
      MirroredWindow(src, mirrored, xFloor, other, yFloor, xFraction, fraction, yFraction, m - 1);
      var before := WindowTaps(src, xFloor, yFloor, xFraction, yFraction, m - 1);
      var j, w := TapIndex(yFloor, m - 1, src.height), Weight(yFraction, m - 1);
      if xFraction == 0.0 {
        NodeRow(src.pixels[j], before, xFloor, w, 6);
        NodeRow(mirrored.pixels[j], before, other, w, 6);
      } else {
        MirroredRow(src.pixels[j], mirrored.pixels[j], before, xFloor, other, w, xFraction);
      }
    }
  }

  lemma MirroredPosition(x: real, size: nat, other: real)
    requires 2.0 <= x <= size as real - 3.0 && other == size as real - 1.0 - x
    ensures 2 <= x.Floor <= size - 3 && 2 <= other.Floor <= size - 3
    ensures FractionOf(x) == 0.0 ==> FractionOf(other) == 0.0 && other.Floor == size - 1 - x.Floor
    ensures FractionOf(x) != 0.0 ==> FractionOf(other) == 1.0 - FractionOf(x) && other.Floor == size - 2 - x.Floor
  {}

  /** Reversing the columns and taking the mirrored position gives the same sample, at every position. */
  lemma MirroredColumns(src: Source, mirrored: Source, x: real, y: Float)
    requires ColumnsReversed(src, mirrored)
    ensures Warped(mirrored, Fin(src.width as real - 1.0 - x), y) == Warped(src, Fin(x), y)
  {
    hide WindowTaps, Clamped, FractionOf;
    if InDomain(src, Fin(x), y) {
      var other := src.width as real - 1.0 - x;
      MirroredPosition(x, src.width, other);
      MirroredWindow(src, mirrored, x.Floor, other.Floor, y.value.Floor, FractionOf(x), FractionOf(other),
          FractionOf(y.value), 6);
    }
  }

  // ----- mirrored rows -----

  function WindowList(src: Source, xFloor: int, yFloor: int, xFraction: real, yFraction: real, m: nat): seq<Tap>
    requires src.Valid() && 0.0 <= xFraction < 1.0 && 0.0 <= yFraction < 1.0 && m <= 6
    requires 2 <= xFloor <= src.width - 3 && 2 <= yFloor <= src.height - 3
  {
    if m == 0 then []
    else
      WindowList(src, xFloor, yFloor, xFraction, yFraction, m - 1)
          + WindowRow(src, xFloor, yFloor, xFraction, yFraction, m - 1)
  }

  function WindowRow(src: Source, xFloor: int, yFloor: int, xFraction: real, yFraction: real, j: nat): seq<Tap>
    requires src.Valid() && 0.0 <= xFraction < 1.0 && 0.0 <= yFraction < 1.0 && j < 6
    requires 2 <= xFloor <= src.width - 3 && 2 <= yFloor <= src.height - 3
  {
    RowList(src.pixels[TapIndex(yFloor, j, src.height)], xFloor, Weight(yFraction, j), xFraction, 6)
  }

  lemma {:induction false} WindowFold(src: Source, xFloor: int, yFloor: int, xFraction: real, yFraction: real, m: nat)
    requires src.Valid() && 0.0 <= xFraction < 1.0 && 0.0 <= yFraction < 1.0 && m <= 6
    requires 2 <= xFloor <= src.width - 3 && 2 <= yFloor <= src.height - 3
    ensures WindowTaps(src, xFloor, yFloor, xFraction, yFraction, m)
      == Fold(EMPTY, WindowList(src, xFloor, yFloor, xFraction, yFraction, m))
  {
    hide Weight, RowTaps, RowList;
    if m > 0 {
      WindowFold(src, xFloor, yFloor, xFraction, yFraction, m - 1);
      var before := WindowTaps(src, xFloor, yFloor, xFraction, yFraction, m - 1);
      RowFold(src.pixels[TapIndex(yFloor, m - 1, src.height)], before, xFloor, Weight(yFraction, m - 1), xFraction, 6);
      FoldTwice(EMPTY, WindowList(src, xFloor, yFloor, xFraction, yFraction, m - 1),
          WindowRow(src, xFloor, yFloor, xFraction, yFraction, m - 1));
    }
  }

  lemma SixRows(src: Source, xFloor: int, yFloor: int, xFraction: real, yFraction: real)
    requires src.Valid() && 0.0 <= xFraction < 1.0 && 0.0 <= yFraction < 1.0
    requires 2 <= xFloor <= src.width - 3 && 2 <= yFloor <= src.height - 3
    ensures multiset(WindowList(src, xFloor, yFloor, xFraction, yFraction, 6))
      == multiset(WindowRow(src, xFloor, yFloor, xFraction, yFraction, 0))
          + multiset(WindowRow(src, xFloor, yFloor, xFraction, yFraction, 1))
          + multiset(WindowRow(src, xFloor, yFloor, xFraction, yFraction, 2))
          + multiset(WindowRow(src, xFloor, yFloor, xFraction, yFraction, 3))
          + multiset(WindowRow(src, xFloor, yFloor, xFraction, yFraction, 4))
          + multiset(WindowRow(src, xFloor, yFloor, xFraction, yFraction, 5))
  {
    hide WindowRow;
    var l := (m: nat) requires m <= 6 => WindowList(src, xFloor, yFloor, xFraction, yFraction, m);
    assert l(1) == l(0) + WindowRow(src, xFloor, yFloor, xFraction, yFraction, 0);
    assert l(2) == l(1) + WindowRow(src, xFloor, yFloor, xFraction, yFraction, 1);
    assert l(3) == l(2) + WindowRow(src, xFloor, yFloor, xFraction, yFraction, 2);
    assert l(4) == l(3) + WindowRow(src, xFloor, yFloor, xFraction, yFraction, 3);
    assert l(5) == l(4) + WindowRow(src, xFloor, yFloor, xFraction, yFraction, 4);
  }

  ghost predicate RowsReversed(src: Source, mirrored: Source) {
    && src.Valid() && mirrored.Valid()
    && mirrored.width == src.width && mirrored.height == src.height && mirrored.domainScale == src.domainScale
    && (forall j :: 0 <= j < src.height ==> mirrored.pixels[j] == src.pixels[src.height - 1 - j])
  }

  lemma SameShape(src: Source, mirrored: Source)
    requires RowsReversed(src, mirrored)
    ensures src.Valid() && mirrored.Valid() && mirrored.width == src.width && mirrored.height == src.height
  {}

  lemma MirroredWindowRow(src: Source, mirrored: Source, xFloor: int, yFloor: int, other: int, xFraction: real,
                          yFraction: real, j: nat)
    requires RowsReversed(src, mirrored) && 0.0 <= xFraction < 1.0 && 0.0 < yFraction < 1.0 && j < 6
    requires 2 <= xFloor <= src.width - 3 && 2 <= yFloor <= src.height - 4 && other == src.height - 2 - yFloor
    ensures WindowRow(mirrored, xFloor, other, xFraction, 1.0 - yFraction, j)
      == WindowRow(src, xFloor, yFloor, xFraction, yFraction, 5 - j)
  {
    hide Weight, RowList;
    MirroredWeight(yFraction, 5 - j);
    assert TapIndex(other, j, src.height) == src.height - 1 - TapIndex(yFloor, 5 - j, src.height);
  }

  lemma MirroredTall(src: Source, mirrored: Source, xFloor: int, yFloor: int, other: int, xFraction: real,
                     yFraction: real)
    requires RowsReversed(src, mirrored) && 0.0 <= xFraction < 1.0 && 0.0 < yFraction < 1.0
    requires 2 <= xFloor <= src.width - 3 && 2 <= yFloor <= src.height - 4 && other == src.height - 2 - yFloor
    ensures other <= mirrored.height - 3 && xFloor <= mirrored.width - 3 && mirrored.Valid()
    ensures WindowTaps(mirrored, xFloor, other, xFraction, 1.0 - yFraction, 6)
      == WindowTaps(src, xFloor, yFloor, xFraction, yFraction, 6)
  {
    hide *;
    SameShape(src, mirrored);
    MirroredWindowRow(src, mirrored, xFloor, yFloor, other, xFraction, yFraction, 0);
    MirroredWindowRow(src, mirrored, xFloor, yFloor, other, xFraction, yFraction, 1);
    MirroredWindowRow(src, mirrored, xFloor, yFloor, other, xFraction, yFraction, 2);
    MirroredWindowRow(src, mirrored, xFloor, yFloor, other, xFraction, yFraction, 3);
    MirroredWindowRow(src, mirrored, xFloor, yFloor, other, xFraction, yFraction, 4);
    MirroredWindowRow(src, mirrored, xFloor, yFloor, other, xFraction, yFraction, 5);
    SixRows(src, xFloor, yFloor, xFraction, yFraction);
    SixRows(mirrored, xFloor, other, xFraction, 1.0 - yFraction);
    AnyOrder(EMPTY, WindowList(src, xFloor, yFloor, xFraction, yFraction, 6),
        WindowList(mirrored, xFloor, other, xFraction, 1.0 - yFraction, 6));
    WindowFold(src, xFloor, yFloor, xFraction, yFraction, 6);
    WindowFold(mirrored, xFloor, other, xFraction, 1.0 - yFraction, 6);
  }

  lemma {:induction false} NodeWindow(src: Source, xFloor: int, yFloor: int, xFraction: real, m: nat)
    requires src.Valid() && 0.0 <= xFraction < 1.0 && m <= 6
    requires 2 <= xFloor <= src.width - 3 && 2 <= yFloor <= src.height - 3
    ensures WindowTaps(src, xFloor, yFloor, xFraction, 0.0, m)
      == if m <= 2 then EMPTY else RowTaps(src.pixels[yFloor], EMPTY, xFloor, 1.0, xFraction, 6)
  {
    hide Weight, RowTaps;
    if m > 0 {
      NodeWindow(src, xFloor, yFloor, xFraction, m - 1);
      WeightsAtZero(m - 1);
      if m != 3 {
        ZeroRow(src.pixels[TapIndex(yFloor, m - 1, src.height)], WindowTaps(src, xFloor, yFloor, xFraction, 0.0, m - 1),
            xFloor, xFraction, 6);
      }
    }
  }

  /** Reversing the rows and taking the mirrored position gives the same sample, at every position. */
  lemma MirroredRows(src: Source, mirrored: Source, x: Float, y: real)
    requires RowsReversed(src, mirrored)
    ensures Warped(mirrored, x, Fin(src.height as real - 1.0 - y)) == Warped(src, x, Fin(y))
  {
    hide WindowTaps, Clamped, FractionOf, RowTaps;
    if InDomain(src, x, Fin(y)) {
      var other := src.height as real - 1.0 - y;
      MirroredPosition(y, src.height, other);
      if FractionOf(y) == 0.0 {
        NodeWindow(src, x.value.Floor, y.Floor, FractionOf(x.value), 6);
        NodeWindow(mirrored, x.value.Floor, other.Floor, FractionOf(x.value), 6);
      } else {
        MirroredTall(src, mirrored, x.value.Floor, y.Floor, other.Floor, FractionOf(x.value), FractionOf(y));
      }
    }
  }

  // ----- rows of any weight -----

  function Joined(a: Option<Range>, b: Option<Range>): Option<Range> {
    if b.None? then a else Extend(Extend(a, b.value.low), b.value.high)
  }

  /** The support s together with another one whose weights are multiplied by w. */
  function Merge(s: Support, w: real, other: Support): Support {
    if w == 0.0 then s
    else Support(s.sum + w * other.sum, s.valid && other.valid, Joined(s.range, other.range))
  }

  predicate Ordered(range: Option<Range>) {
    range.Some? ==> range.value.low <= range.value.high
  }

  lemma MergeTap(s: Support, w: real, other: Support, weight: real, neighbor: Float)
    requires Ordered(other.range) && w != 0.0
    ensures Ordered(AddTap(other, weight, neighbor).range)
    ensures AddTap(Merge(s, w, other), w * weight, neighbor) == Merge(s, w, AddTap(other, weight, neighbor))
  {
    hide Joined, Extend;
    OrderedTap(other, weight, neighbor);
    ZeroProduct(w, weight);
    if weight != 0.0 {
      if neighbor.Fin? {
        var v := neighbor.value;
        MoreOfSum(s.sum, w, other.sum, v, weight);
        JoinedExtends(s.range, other.range, v);
      }
    }
  }

  lemma OrderedTap(s: Support, weight: real, neighbor: Float)
    requires Ordered(s.range)
    ensures Ordered(AddTap(s, weight, neighbor).range)
  {}

  lemma ZeroProduct(a: real, b: real)
    requires a != 0.0
    ensures a * b == 0.0 <==> b == 0.0
  {}

  lemma MoreOfSum(s: real, w: real, t: real, v: real, weight: real)
    ensures s + w * t + v * (w * weight) == s + w * (t + v * weight)
  {
    assert v * (w * weight) == w * (v * weight);
    assert w * (t + v * weight) == w * t + w * (v * weight);
  }

  lemma JoinedExtends(a: Option<Range>, b: Option<Range>, v: real)
    requires Ordered(b)
    ensures Extend(Joined(a, b), v) == Joined(a, Extend(b, v))
  {}

  /** A row of weight w is w times the row of weight one. */
  lemma {:induction false} RowMerges(row: seq<Float>, s: Support, xFloor: int, w: real, xFraction: real, n: nat)
    requires 0.0 <= xFraction < 1.0 && |row| >= 6 && 2 <= xFloor <= |row| - 3 && n <= 6
    ensures Ordered(RowTaps(row, EMPTY, xFloor, 1.0, xFraction, n).range)
    ensures RowTaps(row, s, xFloor, w, xFraction, n)
      == Merge(s, w, RowTaps(row, EMPTY, xFloor, 1.0, xFraction, n))
  {
    hide Weight, AddTap, Joined, RowTaps;
    FirstTap(row, s, xFloor, w, xFraction);
    FirstTap(row, EMPTY, xFloor, 1.0, xFraction);
    if n == 0 {
      EmptyMerge(s, w);
    } else {
      RowMerges(row, s, xFloor, w, xFraction, n - 1);
      var other, k := RowTaps(row, EMPTY, xFloor, 1.0, xFraction, n - 1), Weight(xFraction, n - 1);
      var neighbor := row[TapIndex(xFloor, n - 1, |row|)];
      NextTap(row, s, xFloor, w, xFraction, n - 1, k);
      NextTap(row, EMPTY, xFloor, 1.0, xFraction, n - 1, k);
      assert 1.0 * k == k;
      if w == 0.0 {
        ZeroRow(row, s, xFloor, xFraction, n);
        MergeTap(s, 1.0, other, k, neighbor);
      } else {
        MergeTap(s, w, other, k, neighbor);
      }
    }
  }

  lemma EmptyMerge(s: Support, w: real)
    ensures Merge(s, w, EMPTY) == s
  {
    assert w * 0.0 == 0.0;
  }

  lemma {:induction false} NextRow(src: Source, xFloor: int, yFloor: int, xFraction: real, yFraction: real, m: nat)
    requires src.Valid() && 0.0 <= xFraction < 1.0 && 0.0 <= yFraction < 1.0 && m < 6
    requires 2 <= xFloor <= src.width - 3 && 2 <= yFloor <= src.height - 3
    ensures 0 <= TapIndex(yFloor, m, src.height) < src.height
    ensures Ordered(RowSupport(src, xFloor, yFloor, xFraction, m).range)
    ensures WindowTaps(src, xFloor, yFloor, xFraction, yFraction, m + 1)
      == Merge(WindowTaps(src, xFloor, yFloor, xFraction, yFraction, m), Weight(yFraction, m),
          RowSupport(src, xFloor, yFloor, xFraction, m))
  {
    hide Weight, RowTaps, Merge, Ordered;
    RowMerges(src.pixels[TapIndex(yFloor, m, src.height)], WindowTaps(src, xFloor, yFloor, xFraction, yFraction, m),
        xFloor, Weight(yFraction, m), xFraction, 6);
  }

  /** One row of the window on its own. */
  function RowSupport(src: Source, xFloor: int, yFloor: int, xFraction: real, m: nat): Support
    requires src.Valid() && 0.0 <= xFraction < 1.0 && m < 6
    requires 2 <= xFloor <= src.width - 3 && 2 <= yFloor <= src.height - 3
  {
    RowTaps(src.pixels[TapIndex(yFloor, m, src.height)], EMPTY, xFloor, 1.0, xFraction, 6)
  }

  // ----- one axis at a time -----

  /** One of the first n weights is not zero. */
  predicate Active(fraction: real, n: nat)
    requires 0.0 <= fraction < 1.0
  {
    n > 0 && (Active(fraction, n - 1) || Weight(fraction, n - 1) != 0.0)
  }

  lemma {:induction false} InactiveSum(fraction: real, n: nat)
    requires 0.0 <= fraction < 1.0 && !Active(fraction, n)
    ensures WeightSum(fraction, n) == 0.0
  {
    hide Weight;
    if n > 0 {
      InactiveSum(fraction, n - 1);
    }
  }

  lemma SomeActive(fraction: real)
    requires 0.0 <= fraction < 1.0
    ensures Active(fraction, 6)
  {
    hide Active, WeightSum;
    WeightsSumToOne(fraction);
    if !Active(fraction, 6) {
      InactiveSum(fraction, 6);
    }
  }

  /** The support s is one row, taken with the total weight w. */
  predicate Shares(s: Support, row: Support, w: real, active: bool) {
    s == if active then Support(w * row.sum, row.valid, row.range) else EMPTY
  }

  lemma SharesMore(s: Support, row: Support, w: real, active: bool, weight: real)
    requires Shares(s, row, w, active) && Ordered(row.range) && (!active ==> w == 0.0)
    ensures Shares(Merge(s, weight, row), row, w + weight, active || weight != 0.0)
  {
    assert (w + weight) * row.sum == w * row.sum + weight * row.sum;
  }

  lemma {:induction false} EqualRowsWindow(src: Source, xFloor: int, yFloor: int, xFraction: real, yFraction: real,
                                           m: nat, row: Support)
    requires src.Valid() && 0.0 <= xFraction < 1.0 && 0.0 <= yFraction < 1.0 && m <= 6
    requires 2 <= xFloor <= src.width - 3 && 2 <= yFloor <= src.height - 3
    requires forall j :: 0 <= j < src.height ==> src.pixels[j] == src.pixels[0]
    requires row == RowTaps(src.pixels[0], EMPTY, xFloor, 1.0, xFraction, 6)
    ensures Shares(WindowTaps(src, xFloor, yFloor, xFraction, yFraction, m), row, WeightSum(yFraction, m),
        Active(yFraction, m))
  {
    hide Weight, RowTaps, Merge, Ordered, Shares;
    if m == 0 {
      EmptyShares(row);
    } else {
      EqualRowsWindow(src, xFloor, yFloor, xFraction, yFraction, m - 1, row);
      NextRow(src, xFloor, yFloor, xFraction, yFraction, m - 1);
      if !Active(yFraction, m - 1) {
        InactiveSum(yFraction, m - 1);
      }
      SharesMore(WindowTaps(src, xFloor, yFloor, xFraction, yFraction, m - 1), row, WeightSum(yFraction, m - 1),
          Active(yFraction, m - 1), Weight(yFraction, m - 1));
    }
  }

  lemma EmptyShares(row: Support)
    ensures Shares(EMPTY, row, 0.0, false)
  {}

  lemma WholeShare(s: Support, row: Support, w: real)
    requires Shares(s, row, w, true) && w == 1.0
    ensures s == row
  {}

  lemma EqualRowsSupport(src: Source, x: Float, y: Float)
    requires src.Valid() && InDomain(src, x, y)
    requires forall j :: 0 <= j < src.height ==> src.pixels[j] == src.pixels[0]
    ensures WindowTaps(src, x.value.Floor, y.value.Floor, FractionOf(x.value), FractionOf(y.value), 6)
      == RowTaps(src.pixels[0], EMPTY, x.value.Floor, 1.0, FractionOf(x.value), 6)
  {
    hide WindowTaps, RowTaps, Weight, Shares, Active, WeightSum, FractionOf;
    var row := RowTaps(src.pixels[0], EMPTY, x.value.Floor, 1.0, FractionOf(x.value), 6);
    EqualRowsWindow(src, x.value.Floor, y.value.Floor, FractionOf(x.value), FractionOf(y.value), 6, row);
    WeightsSumToOne(FractionOf(y.value));
    SomeActive(FractionOf(y.value));
    WholeShare(WindowTaps(src, x.value.Floor, y.value.Floor, FractionOf(x.value), FractionOf(y.value), 6), row,
        WeightSum(FractionOf(y.value), 6));
  }

  /** Where all rows are equal, the sample depends on the column position alone. */
  lemma EqualRows(src: Source, x: Float, y: Float, other: Float)
    requires src.Valid() && InDomain(src, x, y) && InDomain(src, x, other)
    requires forall j :: 0 <= j < src.height ==> src.pixels[j] == src.pixels[0]
    ensures Warped(src, x, y) == Warped(src, x, other)
  {
    hide WindowTaps, RowTaps, Clamped, FractionOf;
    EqualRowsSupport(src, x, y);
    EqualRowsSupport(src, x, other);
  }

  lemma {:induction false} ConstantTaps(row: seq<Float>, xFloor: int, xFraction: real, n: nat)
    requires 0.0 <= xFraction < 1.0 && |row| >= 6 && 2 <= xFloor <= |row| - 3 && n <= 6
    requires forall i :: 0 <= i < |row| ==> row[i] == NonFinite
    ensures RowTaps(row, EMPTY, xFloor, 1.0, xFraction, n) == Support(0.0, !Active(xFraction, n), None)
  {
    hide Weight;
    if n > 0 {
      ConstantTaps(row, xFloor, xFraction, n - 1);
      assert 1.0 * Weight(xFraction, n - 1) == Weight(xFraction, n - 1);
    }
  }

  /** A row of equal samples is one sample of weight one. */
  lemma ConstantRow(row: seq<Float>, xFloor: int, xFraction: real, sample: Float)
    requires 0.0 <= xFraction < 1.0 && |row| >= 6 && 2 <= xFloor <= |row| - 3
    requires forall i :: 0 <= i < |row| ==> row[i] == sample
    ensures RowTaps(row, EMPTY, xFloor, 1.0, xFraction, 6) == AddTap(EMPTY, 1.0, sample)
  {
    hide RowTaps, Weight, Active, WeightSum, RowWeight;
    if sample.Fin? {
      FlatEmpty(sample.value);
      FlatRow(row, EMPTY, xFloor, 1.0, xFraction, 6, sample.value, 0.0);
      WeightsSumToOne(xFraction);
      RowWeightIs(1.0, xFraction, 6, 1.0);
      assert sample.value * 1.0 == sample.value;
    } else {
      ConstantTaps(row, xFloor, xFraction, 6);
      SomeActive(xFraction);
    }
  }

  lemma {:induction false} EqualColumnsWindow(src: Source, xFloor: int, other: int, yFloor: int, xFraction: real,
                                              fraction: real, yFraction: real, m: nat)
    requires src.Valid() && 0.0 <= xFraction < 1.0 && 0.0 <= fraction < 1.0 && 0.0 <= yFraction < 1.0 && m <= 6
    requires 2 <= xFloor <= src.width - 3 && 2 <= other <= src.width - 3 && 2 <= yFloor <= src.height - 3
    requires forall j, i :: 0 <= j < src.height && 0 <= i < src.width ==> src.pixels[j][i] == src.pixels[j][0]
    ensures WindowTaps(src, xFloor, yFloor, xFraction, yFraction, m)
      == WindowTaps(src, other, yFloor, fraction, yFraction, m)
  {
    hide Weight, RowTaps, AddTap, Merge, Ordered;
    if m > 0 {
      EqualColumnsWindow(src, xFloor, other, yFloor, xFraction, fraction, yFraction, m - 1);
      NextRow(src, xFloor, yFloor, xFraction, yFraction, m - 1);
      NextRow(src, other, yFloor, fraction, yFraction, m - 1);
      var row := src.pixels[TapIndex(yFloor, m - 1, src.height)];
      ConstantRow(row, xFloor, xFraction, row[0]);
      ConstantRow(row, other, fraction, row[0]);
    }
  }

  /** Where all columns are equal, the sample depends on the row position alone. */
  lemma EqualColumns(src: Source, x: Float, other: Float, y: Float)
    requires src.Valid() && InDomain(src, x, y) && InDomain(src, other, y)
    requires forall j, i :: 0 <= j < src.height && 0 <= i < src.width ==> src.pixels[j][i] == src.pixels[j][0]
    ensures Warped(src, x, y) == Warped(src, other, y)
  {
    hide WindowTaps, Clamped, FractionOf;
    EqualColumnsWindow(src, x.value.Floor, other.value.Floor, y.value.Floor, FractionOf(x.value),
        FractionOf(other.value), FractionOf(y.value), 6);
  }

  // ----- the sum -----

  ghost predicate AllFinite(src: Source) {
    forall j :: 0 <= j < |src.pixels| ==> FiniteRow(src.pixels[j])
  }

  ghost predicate FiniteRow(row: seq<Float>) {
    forall i :: 0 <= i < |row| ==> row[i].Fin?
  }

  /** The first n taps of a row, each sample times its weight. */
  ghost function Across(row: seq<Float>, xFloor: int, xFraction: real, n: nat): real
    requires 0.0 <= xFraction < 1.0 && |row| >= 6 && 2 <= xFloor <= |row| - 3 && n <= 6 && FiniteRow(row)
  {
    if n == 0 then 0.0
    else
      Across(row, xFloor, xFraction, n - 1)
          + Weight(xFraction, n - 1) * row[TapIndex(xFloor, n - 1, |row|)].value
  }

  /** The first m rows of the window, each row's sum times its weight. */
  ghost function Down(src: Source, xFloor: int, yFloor: int, xFraction: real, yFraction: real, m: nat): real
    requires src.Valid() && AllFinite(src) && 0.0 <= xFraction < 1.0 && 0.0 <= yFraction < 1.0 && m <= 6
    requires 2 <= xFloor <= src.width - 3 && 2 <= yFloor <= src.height - 3
  {
    if m == 0 then 0.0
    else
      Down(src, xFloor, yFloor, xFraction, yFraction, m - 1)
          + Weight(yFraction, m - 1) * Across(src.pixels[TapIndex(yFloor, m - 1, src.height)], xFloor, xFraction, 6)
  }

  lemma {:induction false} AcrossIs(row: seq<Float>, xFloor: int, xFraction: real, n: nat)
    requires 0.0 <= xFraction < 1.0 && |row| >= 6 && 2 <= xFloor <= |row| - 3 && n <= 6 && FiniteRow(row)
    ensures RowTaps(row, EMPTY, xFloor, 1.0, xFraction, n).valid
    ensures RowTaps(row, EMPTY, xFloor, 1.0, xFraction, n).sum == Across(row, xFloor, xFraction, n)
  {
    hide Weight, Extend;
    if n > 0 {
      AcrossIs(row, xFloor, xFraction, n - 1);
      var neighbor, k := row[TapIndex(xFloor, n - 1, |row|)], Weight(xFraction, n - 1);
      assert 1.0 * k == k && neighbor.Fin?;
      OneTap(k, neighbor.value);
    }
  }

  lemma OneTap(k: real, v: real)
    ensures v * k == k * v && (k == 0.0 ==> k * v == 0.0)
  {}

  lemma {:induction false} DownIs(src: Source, xFloor: int, yFloor: int, xFraction: real, yFraction: real, m: nat)
    requires src.Valid() && AllFinite(src) && 0.0 <= xFraction < 1.0 && 0.0 <= yFraction < 1.0 && m <= 6
    requires 2 <= xFloor <= src.width - 3 && 2 <= yFloor <= src.height - 3
    ensures WindowTaps(src, xFloor, yFloor, xFraction, yFraction, m).valid
    ensures WindowTaps(src, xFloor, yFloor, xFraction, yFraction, m).sum
      == Down(src, xFloor, yFloor, xFraction, yFraction, m)
  {
    hide Weight, RowTaps, Joined, Ordered, Across;
    if m > 0 {
      DownIs(src, xFloor, yFloor, xFraction, yFraction, m - 1);
      NextRow(src, xFloor, yFloor, xFraction, yFraction, m - 1);
      AcrossIs(src.pixels[TapIndex(yFloor, m - 1, src.height)], xFloor, xFraction, 6);
      OneTap(Weight(yFraction, m - 1), RowSupport(src, xFloor, yFloor, xFraction, m - 1).sum);
    }
  }

  /** On finite samples the warp is their weighted sum; only a sum outside [0, domainScale] is drawn towards it. */
  lemma SampleIsSum(src: Source, x: Float, y: Float)
    requires src.Valid() && AllFinite(src) && InDomain(src, x, y)
    ensures Warped(src, x, y).Fin?
    ensures var sum, sample := Down(src, x.value.Floor, y.value.Floor, FractionOf(x.value), FractionOf(y.value), 6),
                Warped(src, x, y).value;
        if sum < 0.0 then sum <= sample <= 0.0
        else if sum > src.domainScale then src.domainScale <= sample <= sum
        else sample == sum
  {
    hide WindowTaps, Down, FractionOf;
    DownIs(src, x.value.Floor, y.value.Floor, FractionOf(x.value), FractionOf(y.value), 6);
  }

  // ----- finite samples -----

  /** The neighbour of a tap is finite, or one of the tap's weights is zero. */
  ghost predicate Usable(neighbor: Float, yWeight: real, xWeight: real) {
    yWeight == 0.0 || xWeight == 0.0 || neighbor.Fin?
  }

  ghost predicate UsableRow(row: seq<Float>, xFloor: int, yWeight: real, xFraction: real, n: nat)
    requires 0.0 <= xFraction < 1.0 && |row| >= 6 && 2 <= xFloor <= |row| - 3 && n <= 6
  {
    forall i :: 0 <= i < n ==> Usable(row[TapIndex(xFloor, i, |row|)], yWeight, Weight(xFraction, i))
  }

  ghost predicate UsableWindow(src: Source, xFloor: int, yFloor: int, xFraction: real, yFraction: real, m: nat)
    requires src.Valid() && 0.0 <= xFraction < 1.0 && 0.0 <= yFraction < 1.0 && m <= 6
    requires 2 <= xFloor <= src.width - 3 && 2 <= yFloor <= src.height - 3
  {
    forall j :: 0 <= j < m ==>
      UsableRow(src.pixels[TapIndex(yFloor, j, src.height)], xFloor, Weight(yFraction, j), xFraction, 6)
  }

  lemma {:induction false} RowValid(row: seq<Float>, xFloor: int, yWeight: real, xFraction: real, n: nat)
    requires 0.0 <= xFraction < 1.0 && |row| >= 6 && 2 <= xFloor <= |row| - 3 && n <= 6
    ensures yWeight == 0.0 ==> UsableRow(row, xFloor, yWeight, xFraction, n)
    ensures yWeight != 0.0 ==>
        (RowTaps(row, EMPTY, xFloor, 1.0, xFraction, n).valid <==> UsableRow(row, xFloor, yWeight, xFraction, n))
  {
    hide Weight, Extend;
    if n > 0 {
      RowValid(row, xFloor, yWeight, xFraction, n - 1);
      assert 1.0 * Weight(xFraction, n - 1) == Weight(xFraction, n - 1);
    }
  }

  lemma {:induction false} WindowValid(src: Source, xFloor: int, yFloor: int, xFraction: real, yFraction: real,
                                       m: nat)
    requires src.Valid() && 0.0 <= xFraction < 1.0 && 0.0 <= yFraction < 1.0 && m <= 6
    requires 2 <= xFloor <= src.width - 3 && 2 <= yFloor <= src.height - 3
    ensures WindowTaps(src, xFloor, yFloor, xFraction, yFraction, m).valid
      <==> UsableWindow(src, xFloor, yFloor, xFraction, yFraction, m)
  {
    hide Weight, RowTaps, Joined, Ordered, UsableRow;
    if m > 0 {
      WindowValid(src, xFloor, yFloor, xFraction, yFraction, m - 1);
      NextRow(src, xFloor, yFloor, xFraction, yFraction, m - 1);
      RowValid(src.pixels[TapIndex(yFloor, m - 1, src.height)], xFloor, Weight(yFraction, m - 1), xFraction, 6);
    }
  }

  /** There is a sample exactly inside the domain where every neighbour of two weights other than zero is finite. */
  lemma FiniteIff(src: Source, x: Float, y: Float)
    requires src.Valid()
    ensures Warped(src, x, y).Fin? <==>
        InDomain(src, x, y)
        && UsableWindow(src, x.value.Floor, y.value.Floor, FractionOf(x.value), FractionOf(y.value), 6)
  {
    hide WindowTaps, FractionOf, UsableWindow;
    if InDomain(src, x, y) {
      WindowValid(src, x.value.Floor, y.value.Floor, FractionOf(x.value), FractionOf(y.value), 6);
    }
  }
}
