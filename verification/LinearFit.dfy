/**
 The linear-fit rejection of native/src/FusedIntegration.cpp (FitSortedLadLine and
 RunCpuOracleNativeLinearFitIntegration): samples are inserted in ascending order together with their frame
 numbers, rejected against a fitted line round by round, and averaged.
 */
module LinearFit {
  import opened Wrappers
  import opened OrderStatistics
  import opened Reals

  // ----- samples and their frames -----

  datatype Pair = Pair(value: real, frame: nat)

  predicate Sorted(s: seq<Pair>) {
    forall i, j :: 0 <= i < j < |s| ==> s[i].value <= s[j].value
  }

  /** Insert behind every smaller or equal value. */
  function InsertPair(s: seq<Pair>, p: Pair): (r: seq<Pair>)
    ensures |r| == |s| + 1
  {
    if s != [] && s[|s| - 1].value > p.value then InsertPair(s[..|s| - 1], p) + [s[|s| - 1]] else s + [p]
  }

  lemma {:induction false} InsertedMembers(s: seq<Pair>, p: Pair)
    ensures forall q :: q in InsertPair(s, p) <==> q in s || q == p
  {
    if s != [] && s[|s| - 1].value > p.value {
      InsertedMembers(s[..|s| - 1], p);
      assert s == s[..|s| - 1] + [s[|s| - 1]];
    }
  }

  lemma {:induction false} InsertedSorted(s: seq<Pair>, p: Pair)
    requires Sorted(s)
    ensures Sorted(InsertPair(s, p))
  {
    if s != [] && s[|s| - 1].value > p.value {
      var front := s[..|s| - 1];
      InsertedSorted(front, p);
      InsertedMembers(front, p);
      var r := InsertPair(front, p);
      forall i | 0 <= i < |r|
        ensures r[i].value <= s[|s| - 1].value
      {
        assert r[i] in front || r[i] == p;
      }
    }
  }

  /** No frame occurs twice. */
  predicate DistinctFrames(s: seq<Pair>) {
    forall i, j :: 0 <= i < j < |s| ==> s[i].frame != s[j].frame
  }

  lemma {:induction false} InsertedDistinct(s: seq<Pair>, p: Pair)
    requires DistinctFrames(s) && forall q :: q in s ==> q.frame != p.frame
    ensures DistinctFrames(InsertPair(s, p))
  {
    if s != [] && s[|s| - 1].value > p.value {
      var front, last := s[..|s| - 1], s[|s| - 1];
      InsertedDistinct(front, p);
      InsertedMembers(front, p);
      var r := InsertPair(front, p);
      forall i | 0 <= i < |r|
        ensures r[i].frame != last.frame
      {
        assert r[i] in front || r[i] == p;
        assert last in s;
      }
    }
  }

  /** The usable samples of the first n frames, ascending. */
  function Collected(candidates: seq<Option<real>>, n: nat): seq<Pair>
    requires n <= |candidates|
  {
    if n == 0 then []
    else if candidates[n - 1].None? then Collected(candidates, n - 1)
    else InsertPair(Collected(candidates, n - 1), Pair(candidates[n - 1].value, n - 1))
  }

  /** One entry for every usable frame and no other, each value with the frame it came from. */
  lemma {:induction false} CollectedMembers(candidates: seq<Option<real>>, n: nat, p: Pair)
    requires n <= |candidates|
    ensures p in Collected(candidates, n) <==> p.frame < n && candidates[p.frame] == Some(p.value)
  {
    hide InsertPair;
    if n > 0 {
      CollectedMembers(candidates, n - 1, p);
      if candidates[n - 1].Some? {
        InsertedMembers(Collected(candidates, n - 1), Pair(candidates[n - 1].value, n - 1));
      }
    }
  }

  lemma {:induction false} CollectedSorted(candidates: seq<Option<real>>, n: nat)
    requires n <= |candidates|
    ensures Sorted(Collected(candidates, n))
  {
    hide InsertPair, Sorted;
    if n > 0 {
      CollectedSorted(candidates, n - 1);
      if candidates[n - 1].Some? {
        InsertedSorted(Collected(candidates, n - 1), Pair(candidates[n - 1].value, n - 1));
      }
    } else {
      NothingCollected();
    }
  }

  lemma NothingCollected()
    ensures Sorted([]) && DistinctFrames([])
  {}

  lemma {:induction false} CollectedDistinct(candidates: seq<Option<real>>, n: nat)
    requires n <= |candidates|
    ensures DistinctFrames(Collected(candidates, n))
  {
    hide InsertPair, DistinctFrames;
    if n > 0 {
      CollectedDistinct(candidates, n - 1);
      if candidates[n - 1].Some? {
        var s := Collected(candidates, n - 1);
        forall q | q in s
          ensures q.frame != n - 1
        {
          CollectedMembers(candidates, n - 1, q);
        }
        InsertedDistinct(s, Pair(candidates[n - 1].value, n - 1));
      }
    } else {
      NothingCollected();
    }
  }

  // ----- the line -----

  datatype Line = Line(a: real, b: real, averageDeviation: real)

  function Values(s: seq<Pair>): (v: seq<real>)
    ensures |v| == |s|
  {
    seq(|s|, i requires 0 <= i < |s| => s[i].value)
  }

  /** A value above the line of this slope through the origin. */
  function Residual(v: real, slope: real, i: nat): real { v - slope * i as real }

  function Residuals(values: seq<real>, slope: real): (r: seq<real>)
    ensures |r| == |values|
  {
    seq(|values|, i requires 0 <= i < |values| => Residual(values[i], slope, i))
  }

  /** The signed sum of positions: positive when the later values lie above the line. */
  function Score(values: seq<real>, intercept: real, slope: real, n: nat): real
    requires n <= |values|
  {
    if n == 0 then 0.0
    else
      var residual := values[n - 1] - (intercept + slope * (n - 1) as real);
      Score(values, intercept, slope, n - 1)
        + if residual > 0.0 then (n - 1) as real else if residual < 0.0 then -((n - 1) as real) else 0.0
  }

  /** The bracket of the slope after k bisections. */
  function Bracket(values: seq<real>, low: real, high: real, k: nat): (real, real)
    requires values != []
    decreases k
  {
    if k == 0 then (low, high)
    else
      var slope := 0.5 * (low + high);
      var intercept := Median(Residuals(values, slope));
      if Score(values, intercept, slope, |values|) > 0.0
      then Bracket(values, slope, high, k - 1)
      else Bracket(values, low, slope, k - 1)
  }

  /** The first upper end: four times the mean step, and never zero. */
  function SteepestSlope(values: seq<real>): real
    requires |values| >= 2
  {
    var slope := 4.0 * (values[|values| - 1] - values[0]) / (|values| - 1) as real;
    if 0.000000000001 < slope then slope else 0.000000000001
  }

  function DeviationSum(values: seq<real>, a: real, b: real, n: nat): real
    requires n <= |values|
  {
    if n == 0 then 0.0 else DeviationSum(values, a, b, n - 1) + Abs(values[n - 1] - (a + b * (n - 1) as real))
  }

  function FitLine(values: seq<real>, iterations: nat): Line
    requires |values| >= 2
  {
    var bracket := Bracket(values, 0.0, SteepestSlope(values), iterations);
    var b := 0.5 * (bracket.0 + bracket.1);
    var a := Median(Residuals(values, b));
    Line(a, b, DeviationSum(values, a, b, |values|) / |values| as real)
  }

  function Power2(k: nat): real { if k == 0 then 1.0 else 2.0 * Power2(k - 1) }

  /** Every bisection halves the bracket and stays inside it. */
  lemma {:induction false} BracketHalves(values: seq<real>, low: real, high: real, k: nat)
    requires values != [] && low <= high
    ensures var r := Bracket(values, low, high, k);
        low <= r.0 <= r.1 <= high && (r.1 - r.0) * Power2(k) == high - low
    decreases k
  {
    hide Median, Residuals, Score;
    if k > 0 {
      var slope := 0.5 * (low + high);
      BracketHalves(values, slope, high, k - 1);
      BracketHalves(values, low, slope, k - 1);
      var r := Bracket(values, low, high, k);
      Doubled(r.1 - r.0, Power2(k - 1), Power2(k), 0.5 * (high - low));
    }
  }

  lemma Doubled(w: real, p: real, q: real, h: real)
    requires q == 2.0 * p && w * p == h
    ensures w * q == 2.0 * h
  {}

  lemma {:induction false} DeviationNonNegative(values: seq<real>, a: real, b: real, n: nat)
    requires n <= |values|
    ensures DeviationSum(values, a, b, n) >= 0.0
  {
    if n > 0 {
      DeviationNonNegative(values, a, b, n - 1);
    }
  }

  /** The slope is never negative nor steeper than the first bracket, and the mean deviation is not negative. */
  lemma FittedLine(values: seq<real>, iterations: nat)
    requires |values| >= 2
    ensures var line := FitLine(values, iterations);
        0.0 <= line.b <= SteepestSlope(values) && line.averageDeviation >= 0.0
  {
    hide Median, Residuals, SteepestSlope;
    assert SteepestSlope(values) >= 0.0 by { SteepestPositive(values); }
    BracketHalves(values, 0.0, SteepestSlope(values), iterations);
    var line := FitLine(values, iterations);
    DeviationNonNegative(values, line.a, line.b, |values|);
  }

  lemma SteepestPositive(values: seq<real>)
    requires |values| >= 2
    ensures SteepestSlope(values) > 0.0
  {}

  // ----- the intercept is the best one for its slope -----

  function Spread(s: seq<real>, c: real): real {
    if s == [] then 0.0 else Spread(s[..|s| - 1], c) + Abs(s[|s| - 1] - c)
  }

  lemma {:induction false} SpreadOfInsert(s: seq<real>, v: real, c: real)
    ensures Spread(Insert(s, v), c) == Spread(s, c) + Abs(v - c)
  {
    if s == [] || s[|s| - 1] <= v {
      assert Insert(s, v) == s + [v];
      assert (s + [v])[..|s|] == s;
    } else {
      var front, r := s[..|s| - 1], Insert(s, v);
      SpreadOfInsert(front, v, c);
      assert r[..|r| - 1] == Insert(front, v);
    }
  }

  lemma {:induction false} SpreadOfSort(s: seq<real>, c: real)
    ensures Spread(Sort(s), c) == Spread(s, c)
  {
    if s != [] {
      SpreadOfSort(s[..|s| - 1], c);
      SpreadOfInsert(Sort(s[..|s| - 1]), s[|s| - 1], c);
    }
  }

  lemma {:induction false} SpreadFirst(s: seq<real>, c: real)
    requires s != []
    ensures Spread(s, c) == Abs(s[0] - c) + Spread(s[1..], c)
    decreases |s|
  {
    if |s| > 1 {
      var front := s[..|s| - 1];
      SpreadFirst(front, c);
      assert s[1..][..|s| - 2] == front[1..];
    } else {
      assert s[..0] == [] && s[1..] == [];
    }
  }

  /** Taking both ends off an ascending sequence keeps its middle. */
  lemma InnerMiddle(s: seq<real>)
    requires |s| >= 3
    ensures s[1..|s| - 1] != [] && Middle(s[1..|s| - 1]) == Middle(s)
  {}

  lemma {:induction false} MiddleIsBest(s: seq<real>, c: real)
    requires Ascending(s) && s != []
    ensures Spread(s, Middle(s)) <= Spread(s, c)
    decreases |s|
  {
    var m := Middle(s);
    SpreadFirst(s, m);
    SpreadFirst(s, c);
    if |s| == 1 {
      assert s[1..] == [];
    } else {
      var tail := s[1..];
      var inner := s[1..|s| - 1];
      assert tail[..|tail| - 1] == inner && tail[|tail| - 1] == s[|s| - 1];
      assert s[0] <= m <= s[|s| - 1];
      if |s| > 2 {
        InnerMiddle(s);
        MiddleIsBest(inner, c);
      } else {
        assert inner == [];
      }
    }
  }

  lemma {:induction false} DeviationIsSpread(values: seq<real>, a: real, b: real, n: nat)
    requires n <= |values|
    ensures DeviationSum(values, a, b, n) == Spread(Residuals(values, b)[..n], a)
  {
    var r := Residuals(values, b);
    hide Abs;
    if n > 0 {
      DeviationIsSpread(values, a, b, n - 1);
      assert r[..n][..n - 1] == r[..n - 1];
      LastDeviation(values, a, b, n);
      hide Residuals;
    }
  }

  lemma LastDeviation(values: seq<real>, a: real, b: real, n: nat)
    requires 0 < n <= |values|
    ensures DeviationSum(values, a, b, n) == DeviationSum(values, a, b, n - 1) + Abs(Residuals(values, b)[n - 1] - a)
  {
    var p := b * (n - 1) as real;
    assert Residuals(values, b)[n - 1] == Residual(values[n - 1], b, n - 1) == values[n - 1] - p;
    assert values[n - 1] - (a + p) == values[n - 1] - p - a;
    hide Abs;
  }

  /** For its slope, no other intercept has a smaller sum of absolute deviations. */
  lemma InterceptIsBest(values: seq<real>, iterations: nat, c: real)
    requires |values| >= 2
    ensures var line := FitLine(values, iterations);
        DeviationSum(values, line.a, line.b, |values|) <= DeviationSum(values, c, line.b, |values|)
  {
    hide Bracket, SteepestSlope, Spread, Middle, Sort;
    var line := FitLine(values, iterations);
    var r := Residuals(values, line.b);
    assert r[..|values|] == r;
    DeviationIsSpread(values, line.a, line.b, |values|);
    DeviationIsSpread(values, c, line.b, |values|);
    SpreadOfSort(r, line.a);
    SpreadOfSort(r, c);
    SortAscending(r);
    SortPermutes(r);
    assert |Sort(r)| == |r|;
    MiddleIsBest(Sort(r), c);
  }

  // ----- rejection rounds -----

  /** How much longer the way along a line of this slope is than along the positions. */
  function Stretch(root: real -> real, slope: real): real {
    root(1.0 + slope * slope)
  }

  /**
   The limits of the rejection, and two operations of the platform: the square root, and whether a scale
   disappears when it is added to 1 in single precision.
   */
  datatype Limits = Limits(lowTolerance: real, highTolerance: real, bisections: nat, rounds: nat,
                           root: real -> real, vanishes: real -> bool) {
    ghost predicate Valid() {
      lowTolerance > 0.0 && highTolerance > 0.0 && IsRoot(root)
    }

    /** The residual unit of a line: twice its mean deviation, along the normal. */
    function Scale(line: Line): real {
      2.0 * line.averageDeviation * Stretch(root, line.b)
    }

    /** No residual unit to measure by: the samples lie on the line, as far as single precision can tell. */
    predicate Exact(line: Line) {
      Scale(line) <= 0.0 || vanishes(Scale(line))
    }

    predicate Close(line: Line, value: real, i: nat)
      requires Scale(line) > 0.0
    {
      var distance := (value - (line.a + line.b * i as real)) / Scale(line);
      -lowTolerance <= distance <= highTolerance
    }

    /** The samples among the first n that lie close to the line. */
    function Kept(s: seq<Pair>, line: Line, n: nat): (r: seq<Pair>)
      requires Scale(line) > 0.0 && n <= |s|
      ensures |r| <= n
    {
      if n == 0 then []
      else if Close(line, s[n - 1].value, n - 1) then Kept(s, line, n - 1) + [s[n - 1]]
      else Kept(s, line, n - 1)
    }

    /** At most k rounds; fewer when the samples get few, lie on the line, or all stay. */
    function Rounds(s: seq<Pair>, k: nat): (r: seq<Pair>)
      ensures |r| <= |s|
      decreases k
    {
      if k == 0 || |s| < 5 then s
      else
        var line := FitLine(Values(s), bisections);
        if Exact(line) then s
        else
          var kept := Kept(s, line, |s|);
          if |kept| == |s| then s else Rounds(kept, k - 1)
    }
  }

  /** r is s with some entries left out. */
  ghost predicate Subsequence(r: seq<Pair>, s: seq<Pair>)
    decreases |s|
  {
    if s == [] then r == []
    else
      || (r != [] && r[|r| - 1] == s[|s| - 1] && Subsequence(r[..|r| - 1], s[..|s| - 1]))
      || Subsequence(r, s[..|s| - 1])
  }

  lemma {:induction false} SubsequenceSelf(s: seq<Pair>)
    ensures Subsequence(s, s)
  {
    if s != [] {
      SubsequenceSelf(s[..|s| - 1]);
    }
  }

  lemma {:induction false} SubsequenceOf(r: seq<Pair>, s: seq<Pair>, t: seq<Pair>)
    requires Subsequence(r, s) && Subsequence(s, t)
    ensures Subsequence(r, t)
    decreases |t|
  {
    if t != [] {
      var u := t[..|t| - 1];
      if Subsequence(s, u) {
        SubsequenceOf(r, s, u);
      } else if Subsequence(r, s[..|s| - 1]) {
        SubsequenceOf(r, s[..|s| - 1], u);
      } else {
        SubsequenceOf(r[..|r| - 1], s[..|s| - 1], u);
      }
    }
  }

  lemma {:induction false} KeptIsSubsequence(limits: Limits, s: seq<Pair>, line: Line, n: nat)
    requires limits.Scale(line) > 0.0 && n <= |s|
    ensures Subsequence(limits.Kept(s, line, n), s[..n])
  {
    hide Limits.Close, Limits.Scale;
    if n > 0 {
      KeptIsSubsequence(limits, s, line, n - 1);
      var r := limits.Kept(s, line, n - 1);
      assert s[..n][..n - 1] == s[..n - 1];
      assert (r + [s[n - 1]])[..|r|] == r;
    }
  }

  lemma {:induction false} RoundsAreSubsequence(limits: Limits, s: seq<Pair>, k: nat)
    ensures Subsequence(limits.Rounds(s, k), s)
    decreases k
  {
    hide Limits.Scale, Limits.Kept, FitLine, Values, Subsequence;
    SubsequenceSelf(s);
    if k > 0 && |s| >= 5 {
      var line := FitLine(Values(s), limits.bisections);
      if !limits.Exact(line) {
        var kept := limits.Kept(s, line, |s|);
        KeptIsSubsequence(limits, s, line, |s|);
        assert s[..|s|] == s;
        RoundsAreSubsequence(limits, kept, k - 1);
        SubsequenceOf(limits.Rounds(kept, k - 1), kept, s);
      }
    }
  }

  /** Leaving entries out keeps the order, the pairing and the distinctness. */
  lemma {:induction false} SubsequenceMembers(r: seq<Pair>, s: seq<Pair>)
    requires Subsequence(r, s)
    ensures |r| <= |s| && forall p :: p in r ==> p in s
    decreases |s|
  {
    if s != [] {
      var front := s[..|s| - 1];
      assert s == front + [s[|s| - 1]];
      if Subsequence(r, front) {
        SubsequenceMembers(r, front);
      } else {
        SubsequenceMembers(r[..|r| - 1], front);
        assert r == r[..|r| - 1] + [r[|r| - 1]];
      }
    }
  }

  lemma SortedAppend(s: seq<Pair>, p: Pair)
    ensures Sorted(s + [p]) <==> Sorted(s) && forall q :: q in s ==> q.value <= p.value
    ensures DistinctFrames(s + [p]) <==> DistinctFrames(s) && forall q :: q in s ==> q.frame != p.frame
  {
    var t := s + [p];
    assert forall i :: 0 <= i < |s| ==> t[i] == s[i];
    if Sorted(t) {
      forall q | q in s
        ensures q.value <= p.value
      {
        var i :| 0 <= i < |s| && s[i] == q;
        assert t[i].value <= t[|s|].value;
      }
    }
    if DistinctFrames(t) {
      forall q | q in s
        ensures q.frame != p.frame
      {
        var i :| 0 <= i < |s| && s[i] == q;
        assert t[i].frame != t[|s|].frame;
      }
    }
  }

  lemma {:induction false} SubsequenceKeeps(r: seq<Pair>, s: seq<Pair>)
    requires Subsequence(r, s)
    ensures Sorted(s) ==> Sorted(r)
    ensures DistinctFrames(s) ==> DistinctFrames(r)
    decreases |s|
  {
    if s != [] {
      var front, last := s[..|s| - 1], s[|s| - 1];
      assert s == front + [last];
      SortedAppend(front, last);
      if Subsequence(r, front) {
        hide Sorted, DistinctFrames;
        SubsequenceKeeps(r, front);
      } else {
        var head := r[..|r| - 1];
        assert r == head + [last];
        hide Sorted, DistinctFrames;
        SubsequenceKeeps(head, front);
        SubsequenceMembers(head, front);
        SortedAppend(head, last);
      }
    }
  }

  // ----- one pixel -----

  /** The samples that survive all rounds at one pixel. */
  function Survivors(limits: Limits, candidates: seq<Option<real>>): seq<Pair> {
    limits.Rounds(Collected(candidates, |candidates|), limits.rounds)
  }

  /**
   Whatever the lines reject: the survivors are ascending, every one still has the value of its own frame, no
   frame counts twice, and only usable frames are left.
   */
  lemma SurvivorsAreIntact(limits: Limits, candidates: seq<Option<real>>)
    ensures var s := Survivors(limits, candidates);
        && Sorted(s) && DistinctFrames(s) && |s| <= |candidates|
        && forall i :: 0 <= i < |s| ==> s[i].frame < |candidates| && candidates[s[i].frame] == Some(s[i].value)
  {
    hide Limits.Rounds, Subsequence, Sorted, DistinctFrames;
    var all, s := Collected(candidates, |candidates|), Survivors(limits, candidates);
    RoundsAreSubsequence(limits, all, limits.rounds);
    CollectedSorted(candidates, |candidates|);
    CollectedDistinct(candidates, |candidates|);
    SubsequenceKeeps(s, all);
    SubsequenceMembers(s, all);
    CollectedCount(candidates, |candidates|);
    forall i | 0 <= i < |s|
      ensures s[i].frame < |candidates| && candidates[s[i].frame] == Some(s[i].value)
    {
      assert s[i] in all;
      CollectedMembers(candidates, |candidates|, s[i]);
    }
  }

  lemma {:induction false} CollectedCount(candidates: seq<Option<real>>, n: nat)
    requires n <= |candidates|
    ensures |Collected(candidates, n)| <= n
  {
    hide InsertPair;
    if n > 0 {
      CollectedCount(candidates, n - 1);
    }
  }
}
