/**
 Order statistics of short samples: the insertion sort, the median by selection and by sorting, and the
 two-pointer median absolute deviation of native/src/PortableKernels.cpp.
 */
module OrderStatistics {
  import opened Reals

  predicate Ascending(s: seq<real>) {
    forall i, j :: 0 <= i < j < |s| ==> s[i] <= s[j]
  }

  /** Insert `v` after every element that does not exceed it. */
  function Insert(s: seq<real>, v: real): (r: seq<real>)
    ensures |r| == |s| + 1
  {
    if s == [] then [v]
    else
      var n := |s| - 1;
      if s[n] > v then Insert(s[..n], v) + [s[n]] else s + [v]
  }

  function Sort(s: seq<real>): (r: seq<real>)
    ensures |r| == |s|
  {
    if s == [] then [] else Insert(Sort(s[..|s| - 1]), s[|s| - 1])
  }

  lemma DropLast(s: seq<real>)
    requires s != []
    ensures multiset(s[..|s| - 1]) == multiset(s) - multiset{s[|s| - 1]}
  {
    assert s == s[..|s| - 1] + [s[|s| - 1]];
  }

  lemma {:induction false} InsertPermutes(s: seq<real>, v: real)
    ensures multiset(Insert(s, v)) == multiset(s) + multiset{v}
  {
    if s != [] {
      var n := |s| - 1;
      InsertPermutes(s[..n], v);
      DropLast(s);
    }
  }

  lemma {:induction false} SortPermutes(s: seq<real>)
    ensures multiset(Sort(s)) == multiset(s)
  {
    if s != [] {
      var n := |s| - 1;
      SortPermutes(s[..n]);
      InsertPermutes(Sort(s[..n]), s[n]);
      DropLast(s);
    }
  }

  predicate AtMost(s: seq<real>, b: real) {
    forall i :: 0 <= i < |s| ==> s[i] <= b
  }

  predicate AtLeast(s: seq<real>, b: real) {
    forall i :: 0 <= i < |s| ==> s[i] >= b
  }

  lemma {:induction false} InsertBounds(s: seq<real>, v: real, b: real)
    ensures AtMost(s, b) && v <= b ==> AtMost(Insert(s, v), b)
    ensures AtLeast(s, b) && v >= b ==> AtLeast(Insert(s, v), b)
  {
    if s != [] {
      InsertBounds(s[..|s| - 1], v, b);
    }
  }

  lemma {:induction false} SortBounds(s: seq<real>, b: real)
    ensures AtMost(s, b) ==> AtMost(Sort(s), b)
    ensures AtLeast(s, b) ==> AtLeast(Sort(s), b)
  {
    if s != [] {
      SortBounds(s[..|s| - 1], b);
      InsertBounds(Sort(s[..|s| - 1]), s[|s| - 1], b);
    }
  }

  lemma {:induction false} InsertAscending(s: seq<real>, v: real)
    requires Ascending(s)
    ensures Ascending(Insert(s, v))
  {
    if s != [] {
      var n := |s| - 1;
      InsertAscending(s[..n], v);
      InsertBounds(s[..n], v, s[n]);
    }
  }

  lemma {:induction false} SortAscending(s: seq<real>)
    ensures Ascending(Sort(s))
  {
    if s != [] {
      SortAscending(s[..|s| - 1]);
      InsertAscending(Sort(s[..|s| - 1]), s[|s| - 1]);
    }
  }

  lemma LastIsGreatest(s: seq<real>, x: real)
    requires Ascending(s) && x in multiset(s)
    ensures x <= s[|s| - 1]
  {
    var i :| 0 <= i < |s| && s[i] == x;
  }

  lemma SameLast(a: seq<real>, b: seq<real>)
    requires Ascending(a) && Ascending(b) && multiset(a) == multiset(b) && a != [] && |a| == |b|
    ensures a[|a| - 1] == b[|b| - 1]
  {
    assert a[|a| - 1] in multiset(a) && b[|b| - 1] in multiset(b);
    LastIsGreatest(a, b[|b| - 1]);
    LastIsGreatest(b, a[|a| - 1]);
  }

  lemma SameSize(a: seq<real>, b: seq<real>)
    requires multiset(a) == multiset(b)
    ensures |a| == |b|
  {
    assert |multiset(a)| == |a| && |multiset(b)| == |b|;
  }

  lemma Peel(a: seq<real>, b: seq<real>, n: nat)
    requires |a| == |b| == n + 1 && a[n] == b[n] && multiset(a) == multiset(b)
    ensures multiset(a[..n]) == multiset(b[..n])
  {
    DropLast(a);
    DropLast(b);
  }

  lemma AscendingFront(a: seq<real>, n: nat)
    requires Ascending(a) && n <= |a|
    ensures Ascending(a[..n])
  {}

  /** An ascending sample is determined by its multiset. */
  lemma {:induction false} AscendingUnique(a: seq<real>, b: seq<real>)
    requires Ascending(a) && Ascending(b) && multiset(a) == multiset(b)
    ensures a == b
    decreases |a|
  {
    hide Ascending;
    SameSize(a, b);
    if a != [] {
      var n := |a| - 1;
      SameLast(a, b);
      Peel(a, b, n);
      AscendingFront(a, n);
      AscendingFront(b, n);
      AscendingUnique(a[..n], b[..n]);
      assert a == a[..n] + [a[n]] && b == b[..n] + [b[n]];
    }
  }

  lemma SortIs(s: seq<real>, r: seq<real>)
    requires Ascending(r) && multiset(r) == multiset(s)
    ensures Sort(s) == r
  {
    SortAscending(s);
    SortPermutes(s);
    AscendingUnique(Sort(s), r);
  }

  /** The middle value of an ascending sample, or the mean of the two middle ones. */
  function Middle(sorted: seq<real>): real
    requires sorted != []
  {
    var half := |sorted| / 2;
    if |sorted| % 2 != 0 then sorted[half] else (sorted[half - 1] + sorted[half]) / 2.0
  }

  function Median(s: seq<real>): real
    requires s != []
  {
    Middle(Sort(s))
  }

  function Deviations(s: seq<real>, center: real): (r: seq<real>) {
    seq(|s|, i requires 0 <= i < |s| => Abs(s[i] - center))
  }

  /** The median absolute deviation about `center`. */
  function Mad(s: seq<real>, center: real): real
    requires s != []
  {
    Median(Deviations(s, center))
  }

  /** The median depends on the sample only as a multiset, and so does the deviation about a centre. */
  lemma MedianOfPermutation(a: seq<real>, b: seq<real>)
    requires a != [] && multiset(a) == multiset(b)
    ensures |a| == |b| && Median(a) == Median(b)
  {
    assert |multiset(a)| == |a| && |multiset(b)| == |b|;
    SortAscending(b);
    SortPermutes(b);
    SortIs(a, Sort(b));
  }

  lemma {:induction false} DeviationsOfInsert(s: seq<real>, v: real, center: real)
    ensures multiset(Deviations(Insert(s, v), center)) == multiset(Deviations(s, center)) + multiset{Abs(v - center)}
  {
    hide Deviations;
    if s != [] && s[|s| - 1] > v {
      var n := |s| - 1;
      var front, last := s[..n], s[n];
      assert s == front + [last] && Insert(s, v) == Insert(front, v) + [last];
      hide Insert;
      DeviationsOfInsert(front, v, center);
      DeviationsBag(Insert(front, v), last, center);
      DeviationsBag(front, last, center);
    } else {
      assert Insert(s, v) == s + [v];
      DeviationsBag(s, v, center);
    }
  }

  lemma DeviationsBag(s: seq<real>, v: real, center: real)
    ensures multiset(Deviations(s + [v], center)) == multiset(Deviations(s, center)) + multiset{Abs(v - center)}
  {
    DeviationsAppend(s, v, center);
  }

  lemma DeviationsAppend(s: seq<real>, v: real, center: real)
    ensures Deviations(s + [v], center) == Deviations(s, center) + [Abs(v - center)]
  {}

  lemma {:induction false} DeviationsOfSort(s: seq<real>, center: real)
    ensures multiset(Deviations(Sort(s), center)) == multiset(Deviations(s, center))
  {
    hide Deviations;
    if s != [] {
      var n := |s| - 1;
      var front, last := s[..n], s[n];
      assert s == front + [last] && Sort(s) == Insert(Sort(front), last);
      hide Sort, Insert;
      DeviationsOfSort(front, center);
      DeviationsOfInsert(Sort(front), last, center);
      DeviationsBag(front, last, center);
    }
  }

  lemma DeviationsOfPermutation(a: seq<real>, b: seq<real>, center: real)
    requires multiset(a) == multiset(b)
    ensures multiset(Deviations(a, center)) == multiset(Deviations(b, center))
  {
    SortAscending(b);
    SortPermutes(b);
    SortIs(a, Sort(b));
    DeviationsOfSort(a, center);
    DeviationsOfSort(b, center);
  }

  lemma MadOfPermutation(a: seq<real>, b: seq<real>, center: real)
    requires a != [] && multiset(a) == multiset(b)
    ensures |a| == |b| && Mad(a, center) == Mad(b, center)
  {
    MedianOfPermutation(a, b);
    DeviationsOfPermutation(a, b, center);
    MedianOfPermutation(Deviations(a, center), Deviations(b, center));
  }

  // ----- sorting and selecting in place -----

  /** Insert puts the value where the trailing run of greater elements begins. */
  lemma {:induction false} InsertAt(s: seq<real>, v: real, j: nat)
    requires j <= |s| && (j > 0 ==> s[j - 1] <= v) && forall m :: j <= m < |s| ==> s[m] > v
    ensures Insert(s, v) == s[..j] + [v] + s[j..]
  {
    if j < |s| {
      var n := |s| - 1;
      InsertAt(s[..n], v, j);
      assert s[..n][..j] == s[..j] && s[..n][j..] + [s[n]] == s[j..];
    }
  }

  /** One step of the insertion sort: element i is moved down past every greater one. */
  method InsertInPlace(values: array<real>, i: nat)
    requires i < values.Length
    modifies values
    ensures values[..i + 1] == Insert(old(values[..i]), old(values[i]))
    ensures forall m :: i < m < values.Length ==> values[m] == old(values[m])
  {
    ghost var s := values[..i];
    var value := values[i];
    var j := i;
    while j > 0 && values[j - 1] > value
      invariant 0 <= j <= i
      invariant forall m :: 0 <= m < j ==> values[m] == s[m]
      invariant forall m :: j < m <= i ==> values[m] == s[m - 1]
      invariant forall m :: j <= m < i ==> s[m] > value
      invariant forall m :: i < m < values.Length ==> values[m] == old(values[m])
    {
      values[j] := values[j - 1];
      j := j - 1;
    }
    values[j] := value;
    Assembled(s, value, j, values[..i + 1]);
  }

  lemma Assembled(s: seq<real>, v: real, j: nat, t: seq<real>)
    requires j <= |s| && (j > 0 ==> s[j - 1] <= v) && forall m :: j <= m < |s| ==> s[m] > v
    requires |t| == |s| + 1 && t[j] == v
    requires forall m :: 0 <= m < j ==> t[m] == s[m]
    requires forall m :: j < m < |t| ==> t[m] == s[m - 1]
    ensures t == Insert(s, v)
  {
    InsertAt(s, v, j);
  }

  method InsertionSort(values: array<real>, count: nat)
    requires count <= values.Length
    modifies values
    ensures values[..count] == Sort(old(values[..count]))
    ensures forall m :: count <= m < values.Length ==> values[m] == old(values[m])
  {
    ghost var s := values[..];
    for i := 0 to count
      invariant values[..i] == Sort(s[..i])
      invariant forall m :: i <= m < values.Length ==> values[m] == s[m]
    {
      assert s[..i + 1][..i] == s[..i];
      InsertInPlace(values, i);
    }
  }

  /**
   std::nth_element over the first `count` values, by its contract: a permutation with the k-th order
   statistic in place k and nothing greater before it.
   */
  method NthElement(values: array<real>, k: nat, count: nat)
    requires k < count <= values.Length
    modifies values
    ensures multiset(values[..count]) == multiset(old(values[..count]))
    ensures values[k] == Sort(old(values[..count]))[k]
    ensures PartitionedAt(values[..count], k)
    ensures forall m :: count <= m < values.Length ==> values[m] == old(values[m])
  {
    InsertionSort(values, count);
    SortPermutes(old(values[..count]));
    SortAscending(old(values[..count]));
    AscendingPartitioned(values[..count], k);
  }

  /** Nothing before position k exceeds the value there, and nothing after it is smaller. */
  predicate PartitionedAt(s: seq<real>, k: nat)
    requires k < |s|
  {
    AtMost(s[..k], s[k]) && AtLeast(s[k..], s[k])
  }

  lemma AscendingPartitioned(s: seq<real>, k: nat)
    requires Ascending(s) && k < |s|
    ensures PartitionedAt(s, k)
  {}

  /** Split by a pivot value, the front and the back sort separately. */
  lemma PartitionSorts(s: seq<real>, k: nat, pivot: real)
    requires k <= |s| && AtMost(s[..k], pivot) && AtLeast(s[k..], pivot)
    ensures Sort(s) == Sort(s[..k]) + Sort(s[k..])
  {
    hide Sort, Ascending, AtMost, AtLeast;
    var front, back := Sort(s[..k]), Sort(s[k..]);
    SortAscending(s[..k]);
    SortAscending(s[k..]);
    SortPermutes(s[..k]);
    SortPermutes(s[k..]);
    SortBounds(s[..k], pivot);
    SortBounds(s[k..], pivot);
    AscendingAround(front, back, pivot);
    assert s == s[..k] + s[k..];
    SortIs(s, front + back);
  }

  lemma AscendingAround(front: seq<real>, back: seq<real>, pivot: real)
    requires Ascending(front) && Ascending(back) && AtMost(front, pivot) && AtLeast(back, pivot)
    ensures Ascending(front + back)
  {}

  /** The largest of the first `half` values. */
  method MaxElement(values: array<real>, half: nat) returns (m: real)
    requires 0 < half <= values.Length
    ensures m == Sort(values[..half])[half - 1]
  {
    m := values[0];
    for i := 1 to half
      invariant m in values[..i] && forall j :: 0 <= j < i ==> values[j] <= m
    {
      assert values[..i + 1] == values[..i] + [values[i]];
      if m < values[i] {
        m := values[i];
      }
    }
    ghost var sorted := Sort(values[..half]);
    SortAscending(values[..half]);
    SortPermutes(values[..half]);
    assert sorted[half - 1] in multiset(values[..half]) && m in multiset(sorted);
  }

  /** After a selection of position k, the largest value in front is the order statistic before it. */
  lemma LowerMiddle(before: seq<real>, s: seq<real>, k: nat)
    requires multiset(s) == multiset(before) && 0 < k < |s| && PartitionedAt(s, k)
    ensures |before| == |s| && Sort(s[..k])[k - 1] == Sort(before)[k - 1]
  {
    assert |multiset(s)| == |s| && |multiset(before)| == |before|;
    PartitionSorts(s, k, s[k]);
    SortAscending(s);
    SortPermutes(s);
    SortIs(before, Sort(s));
  }

  /** MedianOfFinite: the median by selection; the sample is reordered. */
  method MedianOfFinite(values: array<real>, count: nat) returns (m: real)
    requires 0 < count <= values.Length
    modifies values
    ensures m == Median(old(values[..count]))
    ensures multiset(values[..count]) == multiset(old(values[..count]))
    ensures forall m :: count <= m < values.Length ==> values[m] == old(values[m])
  {
    var half := count / 2;
    NthElement(values, half, count);
    var upper := values[half];
    if count % 2 != 0 {
      return upper;
    }
    var lower := MaxElement(values, half);
    ghost var s := values[..count];
    assert s[..half] == values[..half];
    LowerMiddle(old(values[..count]), s, half);
    return (lower + upper) / 2.0;
  }

  /** Samples longer than this are selected instead of sorted. */
  const SORTED_MEDIAN_MAXIMUM_COUNT: nat := 64

  /** SortedMedianOfFinite: a short sample is left ascending. */
  method SortedMedianOfFinite(values: array<real>, count: nat) returns (m: real)
    requires 0 < count <= values.Length
    modifies values
    ensures m == Median(old(values[..count]))
    ensures multiset(values[..count]) == multiset(old(values[..count]))
    ensures count <= SORTED_MEDIAN_MAXIMUM_COUNT ==> values[..count] == Sort(old(values[..count]))
    ensures forall m :: count <= m < values.Length ==> values[m] == old(values[m])
  {
    if count > SORTED_MEDIAN_MAXIMUM_COUNT {
      m := MedianOfFinite(values, count);
      return;
    }
    hide Sort, Middle;
    InsertionSort(values, count);
    SortPermutes(old(values[..count]));
    m := MiddleOf(values, count);
  }

  /** The middle of the first `count` values. */
  method MiddleOf(values: array<real>, count: nat) returns (m: real)
    requires 0 < count <= values.Length
    ensures m == Middle(values[..count])
  {
    var half := count / 2;
    var upper := values[half];
    if count % 2 != 0 {
      return upper;
    }
    return (values[half - 1] + upper) / 2.0;
  }

  // ----- the median absolute deviation of an ascending sample, by merging two runs -----

  /** d falls up to position `split` and rises from it. */
  predicate Valley(d: seq<real>, split: nat) {
    && split <= |d|
    && (forall i, j :: 0 <= i < j < split ==> d[i] >= d[j])
    && (forall i, j :: split <= i < j < |d| ==> d[i] <= d[j])
  }

  /** The deviations of an ascending sample form a valley at the first value that is not below the centre. */
  lemma DeviationsValley(s: seq<real>, center: real, split: nat)
    requires Ascending(s) && split <= |s|
    requires forall i :: 0 <= i < split ==> s[i] < center
    requires split < |s| ==> s[split] >= center
    ensures Valley(Deviations(s, center), split)
  {
    forall i, j | 0 <= i < j < split
      ensures Deviations(s, center)[i] >= Deviations(s, center)[j]
    {
      assert s[i] <= s[j];
    }
  }

  // ----- order statistics by counting -----

  function CountBelow(s: seq<real>, v: real): (n: nat) {
    if s == [] then 0 else CountBelow(s[..|s| - 1], v) + if s[|s| - 1] < v then 1 else 0
  }

  function CountUpTo(s: seq<real>, v: real): (n: nat) {
    if s == [] then 0 else CountUpTo(s[..|s| - 1], v) + if s[|s| - 1] <= v then 1 else 0
  }

  lemma {:induction false} CountInsert(s: seq<real>, x: real, v: real)
    ensures CountBelow(Insert(s, x), v) == CountBelow(s, v) + if x < v then 1 else 0
    ensures CountUpTo(Insert(s, x), v) == CountUpTo(s, v) + if x <= v then 1 else 0
  {
    if s != [] {
      CountInsert(s[..|s| - 1], x, v);
    }
  }

  lemma {:induction false} CountSort(s: seq<real>, v: real)
    ensures CountBelow(Sort(s), v) == CountBelow(s, v)
    ensures CountUpTo(Sort(s), v) == CountUpTo(s, v)
  {
    if s != [] {
      CountSort(s[..|s| - 1], v);
      CountInsert(Sort(s[..|s| - 1]), s[|s| - 1], v);
    }
  }

  /** If every value outside lo..hi is at least v, at most hi - lo values lie below v. */
  lemma {:induction false} BelowInside(s: seq<real>, lo: nat, hi: nat, v: real)
    requires lo <= hi <= |s| && forall j :: 0 <= j < lo || hi <= j < |s| ==> s[j] >= v
    ensures CountBelow(s, v) <= hi - lo
  {
    if s != [] {
      var n := |s| - 1;
      BelowInside(s[..n], if lo <= n then lo else n, if hi <= n then hi else n, v);
    }
  }

  /** If every value inside lo..hi is at most v, at least hi - lo values do not exceed v. */
  lemma {:induction false} UpToInside(s: seq<real>, lo: nat, hi: nat, v: real)
    requires lo <= hi <= |s| && forall j :: lo <= j < hi ==> s[j] <= v
    ensures CountUpTo(s, v) >= hi - lo
  {
    if s != [] {
      var n := |s| - 1;
      UpToInside(s[..n], if lo <= n then lo else n, if hi <= n then hi else n, v);
    }
  }

  lemma {:induction false} NoneUpTo(s: seq<real>, k: nat, v: real)
    requires k <= |s| && forall j :: k <= j < |s| ==> s[j] > v
    ensures CountUpTo(s, v) <= k
  {
    if k < |s| {
      NoneUpTo(s[..|s| - 1], k, v);
    } else {
      CountAll(s, v);
    }
  }

  lemma {:induction false} CountAll(s: seq<real>, v: real)
    ensures CountUpTo(s, v) <= |s|
  {
    if s != [] {
      CountAll(s[..|s| - 1], v);
    }
  }

  lemma {:induction false} AllBelow(s: seq<real>, k: nat, v: real)
    requires k <= |s| && forall j :: 0 <= j < k ==> s[j] < v
    ensures CountBelow(s, v) >= k
  {
    if k > 0 {
      AllBelow(s[..|s| - 1], if k < |s| then k else k - 1, v);
    }
  }

  /** v is the k-th order statistic when at most k values lie below it and more than k do not exceed it. */
  lemma OrderStatistic(s: seq<real>, k: nat, v: real)
    requires k < |s| && CountBelow(s, v) <= k < CountUpTo(s, v)
    ensures Sort(s)[k] == v
  {
    var r := Sort(s);
    CountSort(s, v);
    SortAscending(s);
    hide Sort;
    if r[k] < v {
      AllBelow(r, k + 1, v);
    } else if r[k] > v {
      NoneUpTo(r, k, v);
    }
  }

  /** v is the median when less than half of the values lie below it and more than half do not exceed it. */
  lemma MedianFromCounts(s: seq<real>, v: real)
    requires 2 * CountBelow(s, v) < |s| < 2 * CountUpTo(s, v)
    ensures Median(s) == v
  {
    hide Sort, CountBelow, CountUpTo;
    OrderStatistic(s, |s| / 2, v);
    if |s| % 2 == 0 {
      OrderStatistic(s, |s| / 2 - 1, v);
    }
  }

  /** Every value at positions lo..hi is at most every value elsewhere. */
  ghost predicate HoldsSmallest(d: seq<real>, lo: nat, hi: nat) {
    lo <= hi <= |d| && forall i, j :: lo <= i < hi && (0 <= j < lo || hi <= j < |d|) ==> d[i] <= d[j]
  }

  /** The merge takes the left neighbour when it is not greater than the right one. */
  lemma TakeLeft(d: seq<real>, split: nat, left: nat, hi: nat)
    requires Valley(d, split) && left < split <= hi && HoldsSmallest(d, left + 1, hi)
    requires hi == |d| || d[left] <= d[hi]
    ensures HoldsSmallest(d, left, hi) && Sort(d)[hi - left - 1] == d[left]
  {
    hide Sort, CountBelow, CountUpTo;
    assert forall j :: hi <= j < |d| ==> d[hi] <= d[j];
    BelowInside(d, left + 1, hi, d[left]);
    UpToInside(d, left, hi, d[left]);
    OrderStatistic(d, hi - left - 1, d[left]);
  }

  /** And the right neighbour otherwise. */
  lemma TakeRight(d: seq<real>, split: nat, lo: nat, hi: nat)
    requires Valley(d, split) && lo <= split <= hi < |d| && HoldsSmallest(d, lo, hi)
    requires lo == 0 || d[lo - 1] > d[hi]
    ensures HoldsSmallest(d, lo, hi + 1) && Sort(d)[hi - lo] == d[hi]
  {
    hide Sort, CountBelow, CountUpTo;
    assert forall j :: 0 <= j < lo ==> d[lo - 1] <= d[j];
    BelowInside(d, lo, hi, d[hi]);
    UpToInside(d, lo, hi + 1, d[hi]);
    OrderStatistic(d, hi - lo, d[hi]);
  }

  /** One step of the merge: the nearer neighbour, the left one when both are equally near. */
  method TakeNearest(sorted: array<real>, count: nat, center: real, ghost d: seq<real>, ghost split: nat, left: int,
                     right: nat)
    returns (next: real, newLeft: int, newRight: nat)
    requires count <= sorted.Length && |d| == count && forall i :: 0 <= i < count ==> d[i] == Abs(sorted[i] - center)
    requires Valley(d, split) && -1 <= left < split <= right <= count && HoldsSmallest(d, left + 1, right)
      && right - left - 1 < count
    ensures -1 <= newLeft < split <= newRight <= count && newRight - newLeft == right - left + 1
    ensures HoldsSmallest(d, newLeft + 1, newRight) && next == Sort(d)[right - left - 1]
  {
    hide Sort, HoldsSmallest, Abs;
    if left >= 0 && (right >= count || Abs(sorted[left] - center) <= Abs(sorted[right] - center)) {
      next := Abs(sorted[left] - center);
      TakeLeft(d, split, left, right);
      newLeft, newRight := left - 1, right;
    } else {
      next := Abs(sorted[right] - center);
      TakeRight(d, split, left + 1, right);
      newLeft, newRight := left, right + 1;
    }
  }

  /** The merge itself: from the valley's floor, take the smaller neighbour until the middle is reached. */
  lemma NothingTaken(d: seq<real>, split: nat)
    requires split <= |d|
    ensures HoldsSmallest(d, split, split)
  {}

  lemma DeviationsAre(s: seq<real>, center: real)
    ensures |Deviations(s, center)| == |s|
    ensures forall i :: 0 <= i < |s| ==> Deviations(s, center)[i] == Abs(s[i] - center)
  {}

  lemma MadOf(s: seq<real>, center: real)
    requires s != []
    ensures Deviations(s, center) != [] && |Sort(Deviations(s, center))| == |s|
    ensures Mad(s, center) == Middle(Sort(Deviations(s, center)))
  {
    hide Sort;
  }

  method MergeDeviations(sorted: array<real>, count: nat, center: real, split: nat) returns (mad: real)
    requires 0 < count <= sorted.Length && Valley(Deviations(sorted[..count], center), split)
    ensures mad == Mad(sorted[..count], center)
  {
    hide Sort, HoldsSmallest, Deviations, Abs, Mad, Median;
    ghost var d := Deviations(sorted[..count], center);
    var left: int, right := split - 1, split;
    var half := count / 2;
    var previous, current := 0.0, 0.0;
    NothingTaken(d, split);
    DeviationsAre(sorted[..count], center);
    assert |Sort(d)| == count;
    for taken := 0 to half + 1
      invariant -1 <= left < split <= right <= count && right - left - 1 == taken
      invariant HoldsSmallest(d, left + 1, right)
      invariant taken > 0 ==> current == Sort(d)[taken - 1]
      invariant taken > 1 ==> previous == Sort(d)[taken - 2]
    {
      previous := current;
      current, left, right := TakeNearest(sorted, count, center, d, split, left, right);
    }
    MadOf(sorted[..count], center);
    mad := if count % 2 != 0 then current else (previous + current) / 2.0;
  }

  /** SortedMadOfFinite: the median absolute deviation of an ascending sample about `center`. */
  method SortedMadOfFinite(sorted: array<real>, count: nat, center: real) returns (mad: real)
    requires 0 < count <= sorted.Length && Ascending(sorted[..count])
    ensures mad == Mad(sorted[..count], center)
  {
    if count > SORTED_MEDIAN_MAXIMUM_COUNT {
      var deviations := new real[count](
        i requires 0 <= i < count <= sorted.Length reads sorted => Abs(sorted[i] - center));
      assert deviations[..count] == Deviations(sorted[..count], center);
      mad := MedianOfFinite(deviations, count);
      return;
    }
    var right := 0;
    while right < count && sorted[right] < center
      invariant 0 <= right <= count
      invariant forall i :: 0 <= i < right ==> sorted[i] < center
    {
      right := right + 1;
    }
    DeviationsValley(sorted[..count], center, right);
    mad := MergeDeviations(sorted, count, center, right);
  }
}
