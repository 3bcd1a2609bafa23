/**
 The sliding sorted window of per-pixel MADs (PooledMadWindow in native/src/PortableKernels.cpp):
 whatever queries came before, the stored values are the sorted values of the current window.
 */
module PooledWindow {
  import opened Arithmetic
  import opened OrderStatistics

  /** A Float32 that may be NaN or infinite; the kernels only ask whether it is finite. */
  datatype Float = NonFinite | Fin(value: real)

  /** The finite values, in order. */
  function Finite(s: seq<Float>): (r: seq<real>)
    ensures |r| <= |s|
  {
    if s == [] then [] else Finite(s[..|s| - 1]) + One(s[|s| - 1])
  }

  lemma Assoc(x: seq<real>, y: seq<real>, z: seq<real>)
    ensures (x + y) + z == x + (y + z)
  {}

  lemma {:induction false} FiniteConcat(a: seq<Float>, b: seq<Float>)
    ensures Finite(a + b) == Finite(a) + Finite(b)
  {
    hide One;
    if b == [] {
      assert a + b == a;
    } else {
      var c, n := a + b, |b| - 1;
      FiniteConcat(a, b[..n]);
      assert c[..|c| - 1] == a + b[..n] && c[|c| - 1] == b[n];
      Assoc(Finite(a), Finite(b[..n]), One(b[n]));
    }
  }

  function One(value: Float): seq<real> {
    match value case NonFinite => [] case Fin(v) => [v]
  }

  lemma FiniteAppend(s: seq<Float>, value: Float)
    ensures Finite(s + [value]) == Finite(s) + One(value)
  {
    assert (s + [value])[..|s|] == s;
  }

  lemma FinitePrepend(value: Float, s: seq<Float>)
    ensures Finite([value] + s) == One(value) + Finite(s)
  {
    FiniteConcat([value], s);
    FiniteAppend([], value);
    assert [] + [value] == [value];
  }

  lemma {:induction false} FiniteHas(s: seq<Float>, i: nat)
    requires i < |s| && s[i].Fin?
    ensures |Finite(s)| > 0
  {
    if i < |s| - 1 {
      FiniteHas(s[..|s| - 1], i);
    }
  }

  function First(x: nat, halfWidth: nat): nat {
    if x > halfWidth then x - halfWidth else 0
  }

  /** One past the last column of the window around x. */
  function End(x: nat, halfWidth: nat, width: nat): nat {
    (if width - 1 < x + halfWidth then width - 1 else x + halfWidth) + 1
  }

  /** The finite MADs of the same-row window around column x. */
  function WindowValues(madMap: seq<Float>, width: nat, halfWidth: nat, rowStart: nat, x: nat): seq<real>
    requires x < width && rowStart + width <= |madMap|
  {
    Finite(madMap[rowStart + First(x, halfWidth)..rowStart + End(x, halfWidth, width)])
  }

  // ----- insertion and removal in a sorted sample -----

  /** std::upper_bound: the first position whose value exceeds v. */
  function UpperBound(s: seq<real>, v: real): (k: nat)
    ensures k <= |s| && (forall i :: 0 <= i < k ==> s[i] <= v) && (k < |s| ==> s[k] > v)
  {
    UpperBoundFrom(s, v, 0)
  }

  function UpperBoundFrom(s: seq<real>, v: real, from: nat): (k: nat)
    requires from <= |s| && forall i :: 0 <= i < from ==> s[i] <= v
    ensures from <= k <= |s| && (forall i :: 0 <= i < k ==> s[i] <= v) && (k < |s| ==> s[k] > v)
    decreases |s| - from
  {
    if from < |s| && s[from] <= v then UpperBoundFrom(s, v, from + 1) else from
  }

  /** std::lower_bound: the first position whose value is not below v. */
  function LowerBoundFrom(s: seq<real>, v: real, from: nat): (k: nat)
    requires from <= |s| && forall i :: 0 <= i < from ==> s[i] < v
    ensures from <= k <= |s| && (forall i :: 0 <= i < k ==> s[i] < v) && (k < |s| ==> s[k] >= v)
    decreases |s| - from
  {
    if from < |s| && s[from] < v then LowerBoundFrom(s, v, from + 1) else from
  }

  lemma UpperBoundInserts(s: seq<real>, v: real)
    requires Ascending(s)
    ensures s[..UpperBound(s, v)] + [v] + s[UpperBound(s, v)..] == Insert(s, v)
  {
    InsertAt(s, v, UpperBound(s, v));
  }

  /** Inserting a value anywhere in the input inserts it in the sorted sample. */
  lemma SortWithFirst(s: seq<real>, v: real)
    ensures Sort([v] + s) == Insert(Sort(s), v)
  {
    SortAscending(s);
    InsertAscending(Sort(s), v);
    InsertPermutes(Sort(s), v);
    SortPermutes(s);
    SortIs([v] + s, Insert(Sort(s), v));
  }

  lemma SortWithLast(s: seq<real>, v: real)
    ensures Sort(s + [v]) == Insert(Sort(s), v)
  {
    assert (s + [v])[..|s|] == s;
  }

  lemma Erase(r: seq<real>, k: nat)
    requires k < |r|
    ensures multiset(r[..k] + r[k + 1..]) == multiset(r) - multiset{r[k]}
  {
    assert r == r[..k] + [r[k]] + r[k + 1..];
  }

  lemma LowerBoundFinds(r: seq<real>, v: real)
    requires Ascending(r) && v in multiset(r)
    ensures LowerBoundFrom(r, v, 0) < |r| && r[LowerBoundFrom(r, v, 0)] == v
  {
    var i :| 0 <= i < |r| && r[i] == v;
    var k := LowerBoundFrom(r, v, 0);
    assert k <= i;
  }

  /** Erasing at the lower bound undoes an insertion. */
  lemma EraseInserted(s: seq<real>, v: real)
    requires Ascending(s)
    ensures var r := Insert(s, v); var k := LowerBoundFrom(r, v, 0); k < |r| && r[..k] + r[k + 1..] == s
  {
    var r := Insert(s, v);
    hide Insert, LowerBoundFrom;
    InsertAscending(s, v);
    InsertPermutes(s, v);
    LowerBoundFinds(r, v);
    var k := LowerBoundFrom(r, v, 0);
    ErasedBag(r, k, s);
    ErasedAscending(r, k);
    hide Ascending;
    AscendingUnique(r[..k] + r[k + 1..], s);
  }

  lemma ErasedBag(r: seq<real>, k: nat, s: seq<real>)
    requires k < |r| && multiset(r) == multiset(s) + multiset{r[k]}
    ensures multiset(r[..k] + r[k + 1..]) == multiset(s)
  {
    Erase(r, k);
  }

  lemma ErasedAscending(r: seq<real>, k: nat)
    requires k < |r| && Ascending(r)
    ensures Ascending(r[..k] + r[k + 1..])
  {}

  /** The columns that stay when the window moves from x to x + 1. */
  function Kept(madMap: seq<Float>, width: nat, halfWidth: nat, rowStart: nat, x: nat): seq<real>
    requires x + 1 < width && rowStart + width <= |madMap|
  {
    Finite(madMap[rowStart + First(x + 1, halfWidth)..rowStart + End(x, halfWidth, width)])
  }

  /** Moving the window drops the leaving column's value in front. */
  lemma WindowLeaves(madMap: seq<Float>, width: nat, halfWidth: nat, rowStart: nat, x: nat)
    requires x + 1 < width && rowStart + width <= |madMap|
    ensures WindowValues(madMap, width, halfWidth, rowStart, x)
        == (if x >= halfWidth then One(madMap[rowStart + x - halfWidth]) else [])
            + Kept(madMap, width, halfWidth, rowStart, x)
  {
    hide Finite, One;
    var first, end := rowStart + First(x, halfWidth), rowStart + End(x, halfWidth, width);
    if x >= halfWidth {
      assert madMap[first..end] == [madMap[first]] + madMap[first + 1..end];
      FinitePrepend(madMap[first], madMap[first + 1..end]);
    } else {
      assert forall r: seq<real> :: [] + r == r;
    }
  }

  /** And appends the entering one's. */
  lemma WindowEnters(madMap: seq<Float>, width: nat, halfWidth: nat, rowStart: nat, x: nat)
    requires x + 1 < width && rowStart + width <= |madMap|
    ensures WindowValues(madMap, width, halfWidth, rowStart, x + 1) == Kept(madMap, width, halfWidth, rowStart, x)
        + if x + 1 + halfWidth < width then One(madMap[rowStart + x + 1 + halfWidth]) else []
  {
    hide Finite, One;
    var next, end := rowStart + First(x + 1, halfWidth), rowStart + End(x, halfWidth, width);
    if x + 1 + halfWidth < width {
      assert madMap[next..end + 1] == madMap[next..end] + [madMap[end]];
      FiniteAppend(madMap[next..end], madMap[end]);
    } else {
      assert forall r: seq<real> :: r + [] == r;
    }
  }

  // ----- the window -----

  class PooledMadWindow {
    const madMap: seq<Float>
    const width: nat
    const halfWidth: nat
    var sorted: seq<real>
    var rowStart: nat
    var x: nat
    var valid: bool

    /** Once filled, the window holds the sorted values around (rowStart, x). */
    ghost predicate Valid()
      reads this
    {
      && width > 0
      && (valid ==> x < width && rowStart + width <= |madMap|)
      && (valid ==> sorted == Sort(WindowValues(madMap, width, halfWidth, rowStart, x)))
    }

    constructor (madMap: seq<Float>, width: nat, halfWidth: nat)
      requires width > 0
      ensures Valid() && this.madMap == madMap && this.width == width && this.halfWidth == halfWidth
    {
      this.madMap, this.width, this.halfWidth := madMap, width, halfWidth;
      sorted, rowStart, x, valid := [], 0, 0, false;
    }

    method Insert(value: Float, ghost before: seq<real>)
      requires sorted == Sort(before)
      modifies `sorted
      ensures sorted == Sort(before + One(value))
    {
      if value.NonFinite? {
        assert before + [] == before;
        return;
      }
      var v := value.value;
      SortAscending(before);
      UpperBoundInserts(sorted, v);
      SortWithLast(before, v);
      var k := UpperBound(sorted, v);
      sorted := sorted[..k] + [v] + sorted[k..];
    }

    method Remove(value: Float, ghost after: seq<real>)
      requires sorted == Sort(One(value) + after)
      modifies `sorted
      ensures sorted == Sort(after)
    {
      if value.NonFinite? {
        assert [] + after == after;
        return;
      }
      var v := value.value;
      SortWithFirst(after, v);
      SortAscending(after);
      EraseInserted(Sort(after), v);
      var k := LowerBoundFrom(sorted, v, 0);
      sorted := sorted[..k] + sorted[k + 1..];
    }

    method Rebuild(newRow: nat, newX: nat)
      requires width > 0 && newX < width && newRow + width <= |madMap|
      modifies this
      ensures Valid() && valid && rowStart == newRow && x == newX
    {
      hide Sort, Finite, One;
      sorted := [];
      rowStart := newRow;
      x := newX;
      var first := First(newX, halfWidth);
      var end := End(newX, halfWidth, width);
      NothingYet();
      for column := first to end
        invariant rowStart == newRow && x == newX
        invariant sorted == Sort(Finite(madMap[newRow + first..newRow + column]))
      {
        ghost var slice := madMap[newRow + first..newRow + column];
        assert madMap[newRow + first..newRow + column + 1] == slice + [madMap[newRow + column]];
        FiniteAppend(slice, madMap[newRow + column]);
        Insert(madMap[rowStart + column], Finite(slice));
      }
      valid := true;
    }

    /** Move the window from column x to x + 1. */
    method Step()
      requires Valid() && valid && x + 1 < width
      modifies this
      ensures Valid() && valid && rowStart == old(rowStart) && x == old(x) + 1
    {
      hide Sort, Finite, One, First, End;
      WindowLeaves(madMap, width, halfWidth, rowStart, x);
      WindowEnters(madMap, width, halfWidth, rowStart, x);
      ghost var kept := Kept(madMap, width, halfWidth, rowStart, x);
      hide WindowValues, Kept;
      assert [] + kept == kept && kept + [] == kept;
      if x >= halfWidth {
        Remove(madMap[rowStart + x - halfWidth], kept);
      }
      x := x + 1;
      if x + halfWidth < width {
        Insert(madMap[rowStart + x + halfWidth], kept);
      }
    }

    /** Bring the window to a column of a row and read its median. */
    method MedianOfColumn(newRow: nat, column: nat) returns (m: real)
      requires Valid() && column < width && newRow + width <= |madMap|
      requires |WindowValues(madMap, width, halfWidth, newRow, column)| > 0
      modifies this
      ensures Valid() && m == Median(WindowValues(madMap, width, halfWidth, newRow, column))
    {
      hide Sort, WindowValues;
      if !valid || newRow != rowStart || column < x || column - x > halfWidth {
        Rebuild(newRow, column);
      } else {
        while x < column
          invariant Valid() && valid && x <= column && rowStart == newRow
        {
          Step();
        }
      }
      var count := |sorted|;
      var half := count / 2;
      var upper := sorted[half];
      if count % 2 != 0 {
        return upper;
      }
      return (sorted[half - 1] + upper) / 2.0;
    }

    /**
     The pooled MAD of one pixel: the median of its window, whatever was asked before.  The caller asks
     only for pixels that have a finite MAD themselves, so the window is never empty.
     */
    method MedianAt(pixel: nat, ghost rows: nat) returns (m: real)
      requires Valid() && |madMap| == rows * width && pixel < |madMap| && madMap[pixel].Fin?
      modifies this
      ensures Valid() && m == PooledMad(madMap, width, halfWidth, pixel, rows)
    {
      hide Sort, WindowValues, Median;
      RowFits(pixel, width, rows);
      var column := pixel % width;
      WindowHasCentre(madMap, width, halfWidth, pixel - column, column);
      m := MedianOfColumn(pixel - column, column);
    }
  }

  /** The median of the finite MADs around one pixel of a map of whole rows. */
  ghost function PooledMad(madMap: seq<Float>, width: nat, halfWidth: nat, pixel: nat, rows: nat): real
    requires width > 0 && |madMap| == rows * width && pixel < |madMap| && madMap[pixel].Fin?
  {
    RowFits(pixel, width, rows);
    var column := pixel % width;
    WindowHasCentre(madMap, width, halfWidth, pixel - column, column);
    Median(WindowValues(madMap, width, halfWidth, pixel - column, column))
  }

  lemma NothingYet()
    ensures Sort(Finite([])) == []
  {}

  lemma WindowHasCentre(madMap: seq<Float>, width: nat, halfWidth: nat, rowStart: nat, x: nat)
    requires x < width && rowStart + width <= |madMap| && madMap[rowStart + x].Fin?
    ensures |WindowValues(madMap, width, halfWidth, rowStart, x)| > 0
  {
    hide Finite;
    var first := First(x, halfWidth);
    var slice := madMap[rowStart + first..rowStart + End(x, halfWidth, width)];
    assert slice[x - first] == madMap[rowStart + x];
    FiniteHas(slice, x - first);
  }
}
