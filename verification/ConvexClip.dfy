/**
 Clipping keeps a convex polygon convex and turning the same way, so the clipped areas never change sign.
 Convex position is weak here: clipped polygons may repeat vertices or have straight angles.
 */
module ConvexClip {
  import opened PolygonClip

  /** Twice the signed area of the triangle a, b, c. */
  function Turn(a: Point, b: Point, c: Point): real {
    (b.x - a.x) * (c.y - a.y) - (c.x - a.x) * (b.y - a.y)
  }

  function Side(ccw: bool, a: Point, b: Point, c: Point): real {
    if ccw then Turn(a, b, c) else -Turn(a, b, c)
  }

  /** Every three vertices in order turn the same way, or not at all. */
  ghost predicate Convex(ccw: bool, polygon: seq<Point>) {
    forall i, j, k :: 0 <= i < j < k < |polygon| ==> Side(ccw, polygon[i], polygon[j], polygon[k]) >= 0.0
  }

  /** m divides the segment from p to q in the ratio t. */
  predicate Divides(p: Point, q: Point, t: real, m: Point) {
    0.0 <= t <= 1.0 && m.x == p.x + t * (q.x - p.x) && m.y == p.y + t * (q.y - p.y)
  }

  lemma TurnCycle(a: Point, b: Point, c: Point)
    ensures Turn(a, b, c) == Turn(b, c, a) == Turn(c, a, b)
  {}

  lemma TurnDegenerate(a: Point, c: Point)
    ensures Turn(a, a, c) == 0.0 && Turn(a, c, c) == 0.0 && Turn(a, c, a) == 0.0
  {}

  /** The turn is affine in its first point. */
  lemma TurnAffine(p: Point, q: Point, t: real, m: Point, b: Point, c: Point)
    requires Divides(p, q, t, m)
    ensures Turn(m, b, c) == (1.0 - t) * Turn(p, b, c) + t * Turn(q, b, c)
  {
    // linear form of the turn in its first point
    var kx, ky, k := b.y - c.y, c.x - b.x, b.x * c.y - c.x * b.y;
    assert Turn(m, b, c) == m.x * kx + m.y * ky + k;
    assert Turn(p, b, c) == p.x * kx + p.y * ky + k;
    assert Turn(q, b, c) == q.x * kx + q.y * ky + k;
    LinearForm(p.x, q.x, kx, p.y, q.y, ky, k, t, m.x, m.y);
  }

  lemma LinearForm(px: real, qx: real, kx: real, py: real, qy: real, ky: real, k: real, t: real, mx: real, my: real)
    requires mx == px + t * (qx - px) && my == py + t * (qy - py)
    ensures mx * kx + my * ky + k == (1.0 - t) * (px * kx + py * ky + k) + t * (qx * kx + qy * ky + k)
  {
    assert mx * kx == px * kx + t * (qx * kx) - t * (px * kx);
    assert my * ky == py * ky + t * (qy * ky) - t * (py * ky);
  }

  lemma Mix(t: real, a: real, b: real)
    requires 0.0 <= t <= 1.0 && a >= 0.0 && b >= 0.0
    ensures (1.0 - t) * a + t * b >= 0.0
  {
    assert t * b >= 0.0 && (1.0 - t) * a >= 0.0;
  }

  lemma SideBetween(ccw: bool, p: Point, q: Point, t: real, m: Point, b: Point, c: Point)
    requires Divides(p, q, t, m) && Side(ccw, p, b, c) >= 0.0 && Side(ccw, q, b, c) >= 0.0
    ensures Side(ccw, m, b, c) >= 0.0
  {
    TurnAffine(p, q, t, m, b, c);
    Mix(t, Side(ccw, p, b, c), Side(ccw, q, b, c));
  }

  lemma SideCycle(ccw: bool, a: Point, b: Point, c: Point)
    ensures Side(ccw, a, b, c) == Side(ccw, b, c, a) == Side(ccw, c, a, b)
  {
    TurnCycle(a, b, c);
  }

  lemma SideDegenerate(ccw: bool, a: Point, c: Point)
    ensures Side(ccw, a, a, c) == 0.0 && Side(ccw, a, c, c) == 0.0 && Side(ccw, a, c, a) == 0.0
  {
    TurnDegenerate(a, c);
  }

  /** Leaving a vertex out keeps a polygon convex. */
  lemma RemoveVertex(ccw: bool, front: seq<Point>, x: Point, back: seq<Point>)
    requires Convex(ccw, front + [x] + back)
    ensures Convex(ccw, front + back)
  {
    var old_, new_ := front + [x] + back, front + back;
    forall i, j, k | 0 <= i < j < k < |new_|
      ensures Side(ccw, new_[i], new_[j], new_[k]) >= 0.0
    {
      var n := |front|;
      var i', j', k' := if i < n then i else i + 1, if j < n then j else j + 1, if k < n then k else k + 1;
      assert new_[i] == old_[i'] && new_[j] == old_[j'] && new_[k] == old_[k'];
    }
  }

  /** So does writing the division point of an edge between its ends. */
  lemma InsertVertex(ccw: bool, front: seq<Point>, p: Point, t: real, m: Point, q: Point, back: seq<Point>)
    requires Convex(ccw, front + [p] + [q] + back) && Divides(p, q, t, m)
    ensures Convex(ccw, front + [p] + [m] + [q] + back)
  {
    var old_, new_ := front + [p] + [q] + back, front + [p] + [m] + [q] + back;
    var a := |front|;
    assert old_[a] == p && old_[a + 1] == q;
    forall i, j, k | 0 <= i < j < k < |new_|
      ensures Side(ccw, new_[i], new_[j], new_[k]) >= 0.0
    {
      var i', j', k' := if i <= a then i else i - 1, if j <= a then j else j - 1, if k <= a then k else k - 1;
      assert i != a + 1 ==> new_[i] == old_[i'];
      assert j != a + 1 ==> new_[j] == old_[j'];
      assert k != a + 1 ==> new_[k] == old_[k'];
      if i == a + 1 {
        Triple(ccw, old_, a, j', k');
        Triple(ccw, old_, a + 1, j', k');
        SideBetween(ccw, p, q, t, m, old_[j'], old_[k']);
      } else if j == a + 1 {
        Triple(ccw, old_, i', a, k');
        Triple(ccw, old_, i', a + 1, k');
        SideCycle(ccw, old_[i'], p, old_[k']);
        SideCycle(ccw, old_[i'], q, old_[k']);
        SideCycle(ccw, old_[i'], m, old_[k']);
        SideBetween(ccw, p, q, t, m, old_[k'], old_[i']);
      } else if k == a + 1 {
        Triple(ccw, old_, i', j', a);
        Triple(ccw, old_, i', j', a + 1);
        SideCycle(ccw, old_[i'], old_[j'], p);
        SideCycle(ccw, old_[i'], old_[j'], q);
        SideCycle(ccw, old_[i'], old_[j'], m);
        SideBetween(ccw, p, q, t, m, old_[i'], old_[j']);
      } else {
        Triple(ccw, old_, i', j', k');
      }
    }
  }

  /** Three vertices in order, possibly equal, do not turn the wrong way. */
  lemma Triple(ccw: bool, polygon: seq<Point>, i: nat, j: nat, k: nat)
    requires Convex(ccw, polygon) && i <= j <= k < |polygon|
    ensures Side(ccw, polygon[i], polygon[j], polygon[k]) >= 0.0
  {
    if i == j {
      SideDegenerate(ccw, polygon[i], polygon[k]);
    } else if j == k {
      SideDegenerate(ccw, polygon[i], polygon[j]);
    }
  }

  /** Repeating the last vertex in front closes the polygon without spoiling it. */
  lemma CloseInFront(ccw: bool, polygon: seq<Point>)
    requires Convex(ccw, polygon) && polygon != []
    ensures Convex(ccw, [polygon[|polygon| - 1]] + polygon)
  {
    hide Side;
    var n := |polygon| - 1;
    var closed := [polygon[n]] + polygon;
    forall i, j, k | 0 <= i < j < k < |closed|
      ensures Side(ccw, closed[i], closed[j], closed[k]) >= 0.0
    {
      if i == 0 {
        SideCycle(ccw, polygon[n], polygon[j - 1], polygon[k - 1]);
        Triple(ccw, polygon, j - 1, k - 1, n);
      } else {
        Triple(ccw, polygon, i - 1, j - 1, k - 1);
      }
    }
  }

  // ----- a clip writes at most one vertex more -----

  function Coordinate(vertical: bool, p: Point): real {
    if vertical then p.x else p.y
  }

  /** Two of four values in cyclic order, the first and third or the second and fourth, exceed the other two. */
  predicate Alternates(a: real, b: real, c: real, d: real) {
    (a > b && a > d && c > b && c > d) || (b > a && b > c && d > a && d > c)
  }

  /** Along the polygon the coordinate rises and falls only once. */
  ghost predicate Tame(vertical: bool, polygon: seq<Point>) {
    forall i, j, k, l :: 0 <= i < j < k < l < |polygon| ==> !AlternatesAt(vertical, polygon, i, j, k, l)
  }

  predicate AlternatesAt(vertical: bool, polygon: seq<Point>, i: int, j: int, k: int, l: int)
    requires 0 <= i <= j <= k <= l < |polygon|
  {
    Alternates(Coordinate(vertical, polygon[i]), Coordinate(vertical, polygon[j]),
               Coordinate(vertical, polygon[k]), Coordinate(vertical, polygon[l]))
  }

  /** Possibly equal positions in order do not alternate either. */
  lemma Quadruple(vertical: bool, polygon: seq<Point>, i: nat, j: nat, k: nat, l: nat)
    requires Tame(vertical, polygon) && i <= j <= k <= l < |polygon|
    ensures !AlternatesAt(vertical, polygon, i, j, k, l)
  {
    if i < j < k < l {
      assert !AlternatesAt(vertical, polygon, i, j, k, l);
    }
  }

  lemma RemoveTame(vertical: bool, front: seq<Point>, x: Point, back: seq<Point>)
    requires Tame(vertical, front + [x] + back)
    ensures Tame(vertical, front + back)
  {
    var old_, new_ := front + [x] + back, front + back;
    var n := |front|;
    forall i, j, k, l | 0 <= i < j < k < l < |new_|
      ensures !AlternatesAt(vertical, new_, i, j, k, l)
    {
      var i', j' := if i < n then i else i + 1, if j < n then j else j + 1;
      var k', l' := if k < n then k else k + 1, if l < n then l else l + 1;
      assert new_[i] == old_[i'] && new_[j] == old_[j'] && new_[k] == old_[k'] && new_[l] == old_[l'];
      Quadruple(vertical, old_, i', j', k', l');
    }
  }

  lemma OnSegment(p: real, d: real, t: real, m: real)
    requires 0.0 <= t <= 1.0 && m == p + t * d
    ensures BetweenValues(p, m, p + d)
  {
    SegmentBetween(t, d);
  }

  lemma DividesBetween(vertical: bool, p: Point, q: Point, t: real, m: Point)
    requires Divides(p, q, t, m)
    ensures BetweenValues(Coordinate(vertical, p), Coordinate(vertical, m), Coordinate(vertical, q))
  {
    OnSegment(p.x, q.x - p.x, t, m.x);
    OnSegment(p.y, q.y - p.y, t, m.y);
  }

  lemma SegmentBetween(t: real, d: real)
    requires 0.0 <= t <= 1.0
    ensures d >= 0.0 ==> 0.0 <= t * d <= d
    ensures d <= 0.0 ==> d <= t * d <= 0.0
  {
    assert (1.0 - t) * d == d - t * d;
    SignOfProduct(t, d);
    SignOfProduct(1.0 - t, d);
  }

  lemma SignOfProduct(a: real, b: real)
    requires a >= 0.0
    ensures b >= 0.0 ==> a * b >= 0.0
    ensures b <= 0.0 ==> a * b <= 0.0
  {}

  predicate BetweenValues(a: real, m: real, b: real) {
    a <= m <= b || b <= m <= a
  }

  /** Replacing one value by a value between two non-alternating choices does not make the four alternate. */
  lemma AlternatesBetween(m: real, p: real, q: real, b: real, c: real, d: real)
    requires BetweenValues(p, m, q) && !Alternates(p, b, c, d) && !Alternates(q, b, c, d)
    ensures !Alternates(m, b, c, d)
  {}

  lemma AlternatesRotate(a: real, b: real, c: real, d: real)
    ensures Alternates(a, b, c, d) == Alternates(b, c, d, a) == Alternates(c, d, a, b) == Alternates(d, a, b, c)
  {}

  lemma InsertTame(vertical: bool, front: seq<Point>, p: Point, t: real, m: Point, q: Point, back: seq<Point>)
    requires Tame(vertical, front + [p] + [q] + back) && Divides(p, q, t, m)
    ensures Tame(vertical, front + [p] + [m] + [q] + back)
  {
    DividesBetween(vertical, p, q, t, m);
    var old_, new_ := front + [p] + [q] + back, front + [p] + [m] + [q] + back;
    var a := |front|;
    var cp, cq, cm := Coordinate(vertical, p), Coordinate(vertical, q), Coordinate(vertical, m);
    assert old_[a] == p && old_[a + 1] == q && new_[a + 1] == m;
    forall i, j, k, l | 0 <= i < j < k < l < |new_|
      ensures !AlternatesAt(vertical, new_, i, j, k, l)
    {
      hide Alternates, Tame, Coordinate;
      // the old position that stands for a new one; the inserted point stands for p here
      var i', j' := if i <= a then i else i - 1, if j <= a then j else j - 1;
      var k', l' := if k <= a then k else k - 1, if l <= a then l else l - 1;
      assert i != a + 1 ==> new_[i] == old_[i'];
      assert j != a + 1 ==> new_[j] == old_[j'];
      assert k != a + 1 ==> new_[k] == old_[k'];
      assert l != a + 1 ==> new_[l] == old_[l'];
      var A, B := Coordinate(vertical, old_[i']), Coordinate(vertical, old_[j']);
      var C, D := Coordinate(vertical, old_[k']), Coordinate(vertical, old_[l']);
      Quadruple(vertical, old_, i', j', k', l');
      AlternatesRotate(A, B, C, D);
      if i == a + 1 {
        Quadruple(vertical, old_, a + 1, j', k', l');
        AlternatesBetween(cm, cp, cq, B, C, D);
      } else if j == a + 1 {
        Quadruple(vertical, old_, i', a + 1, k', l');
        AlternatesRotate(A, cq, C, D);
        AlternatesBetween(cm, cp, cq, C, D, A);
        AlternatesRotate(A, cm, C, D);
      } else if k == a + 1 {
        Quadruple(vertical, old_, i', j', a + 1, l');
        AlternatesRotate(A, B, cq, D);
        AlternatesBetween(cm, cp, cq, D, A, B);
        AlternatesRotate(A, B, cm, D);
      } else if l == a + 1 {
        Quadruple(vertical, old_, i', j', k', a + 1);
        AlternatesRotate(A, B, C, cq);
        AlternatesBetween(cm, cp, cq, A, B, C);
        AlternatesRotate(A, B, C, cm);
      }
    }
  }

  lemma CloseTame(vertical: bool, polygon: seq<Point>)
    requires Tame(vertical, polygon) && polygon != []
    ensures Tame(vertical, [polygon[|polygon| - 1]] + polygon)
  {
    var n := |polygon| - 1;
    var closed := [polygon[n]] + polygon;
    forall i, j, k, l | 0 <= i < j < k < l < |closed|
      ensures !AlternatesAt(vertical, closed, i, j, k, l)
    {
      hide Alternates, Tame, Coordinate;
      if i == 0 {
        Quadruple(vertical, polygon, j - 1, k - 1, l - 1, n);
        AlternatesRotate(Coordinate(vertical, polygon[j - 1]), Coordinate(vertical, polygon[k - 1]),
                         Coordinate(vertical, polygon[l - 1]), Coordinate(vertical, polygon[n]));
      } else {
        Quadruple(vertical, polygon, i - 1, j - 1, k - 1, l - 1);
      }
    }
  }

  /** What a clip keeps: the polygon turns one way, or a coordinate rises and falls once. */
  datatype Shape = Turning(ccw: bool) | Rising(vertical: bool)

  ghost predicate Has(shape: Shape, polygon: seq<Point>) {
    match shape
    case Turning(ccw) => Convex(ccw, polygon)
    case Rising(vertical) => Tame(vertical, polygon)
  }

  lemma RemoveShaped(shape: Shape, front: seq<Point>, x: Point, back: seq<Point>)
    requires Has(shape, front + [x] + back)
    ensures Has(shape, front + back)
  {
    hide Convex, Tame;
    match shape
    case Turning(ccw) => RemoveVertex(ccw, front, x, back);
    case Rising(vertical) => RemoveTame(vertical, front, x, back);
  }

  lemma InsertShaped(shape: Shape, front: seq<Point>, p: Point, t: real, m: Point, q: Point, back: seq<Point>)
    requires Has(shape, front + [p] + [q] + back) && Divides(p, q, t, m)
    ensures Has(shape, front + [p] + [m] + [q] + back)
  {
    hide Convex, Tame;
    match shape
    case Turning(ccw) => InsertVertex(ccw, front, p, t, m, q, back);
    case Rising(vertical) => InsertTame(vertical, front, p, t, m, q, back);
  }

  lemma CloseShaped(shape: Shape, polygon: seq<Point>)
    requires Has(shape, polygon) && polygon != []
    ensures Has(shape, [polygon[|polygon| - 1]] + polygon)
  {
    hide Convex, Tame;
    match shape
    case Turning(ccw) => CloseInFront(ccw, polygon);
    case Rising(vertical) => CloseTame(vertical, polygon);
  }

  // ----- clipping keeps the shape -----

  lemma IntersectDivides(h: HalfPlane, p: Point, q: Point) returns (t: real)
    requires h.Keep(p) != h.Keep(q)
    ensures Divides(p, q, t, h.Intersect(p, q))
  {
    var n, d := h.bound - h.U(p), h.U(q) - h.U(p);
    t := n / d;
    RatioBetween(n, d, t);
  }

  lemma RatioBetween(n: real, d: real, t: real)
    requires d != 0.0 && t == n / d && (if d > 0.0 then 0.0 <= n <= d else d <= n <= 0.0)
    ensures 0.0 <= t <= 1.0 && t * d == n
  {
    assert t * d == n;
    assert (-t) * d == -n && (t - 1.0) * d == n - d && (t - 1.0) * (-d) == d - n && t * (-d) == -n;
    SameSign(t, d);
    SameSign(t - 1.0, d);
  }

  lemma SameSign(a: real, b: real)
    ensures a > 0.0 && b > 0.0 ==> a * b > 0.0
    ensures a < 0.0 && b < 0.0 ==> a * b > 0.0
    ensures a < 0.0 && b > 0.0 ==> a * b < 0.0
    ensures a > 0.0 && b < 0.0 ==> a * b < 0.0
  {}

  /** The chain is clipped vertex by vertex: insert the border point, then drop the vertex left outside. */
  lemma {:induction false} ClipChainShaped(shape: Shape, h: HalfPlane, front: seq<Point>, p: Point, chain: seq<Point>)
    requires Has(shape, front + [p] + chain)
    ensures Has(shape, front + (if h.Keep(p) then [p] else []) + ClipChain(h, p, chain))
    decreases |chain|
  {
    hide Has;
    if chain == [] {
      if !h.Keep(p) {
        RemoveShaped(shape, front, p, []);
        assert front + [] + [] == front + [];
      }
    } else {
      var q, rest := chain[0], chain[1..];
      assert front + [p] + chain == front + [p] + [q] + rest;
      var tail := ClipChain(h, q, rest);
      if h.Keep(p) && h.Keep(q) {
        ClipChainShaped(shape, h, front + [p], q, rest);
        assert front + [p] + [q] + tail == front + [p] + ([q] + tail);
      } else if !h.Keep(p) && !h.Keep(q) {
        assert front + [p] + ([q] + rest) == front + [p] + [q] + rest;
        RemoveShaped(shape, front, p, [q] + rest);
        assert front + ([q] + rest) == front + [q] + rest;
        ClipChainShaped(shape, h, front, q, rest);
        assert [] + tail == tail;
      } else {
        var i := h.Intersect(p, q);
        var t := IntersectDivides(h, p, q);
        InsertShaped(shape, front, p, t, i, q, rest);
        if h.Keep(p) {
          ClipChainShaped(shape, h, front + [p] + [i], q, rest);
          assert front + [p] + [i] + [] + tail == front + [p] + ([i] + tail);
        } else {
          assert front + [p] + [i] + [q] + rest == front + [p] + ([i] + [q] + rest);
          RemoveShaped(shape, front, p, [i] + [q] + rest);
          assert front + ([i] + [q] + rest) == (front + [i]) + [q] + rest;
          ClipChainShaped(shape, h, front + [i], q, rest);
          assert (front + [i]) + [q] + tail == front + [] + ([i, q] + tail);
        }
      }
    }
  }

  /** A clip of a convex polygon is convex and turns the same way; a clip of a tame polygon is tame. */
  lemma ClipShaped(shape: Shape, h: HalfPlane, polygon: seq<Point>)
    requires Has(shape, polygon)
    ensures Has(shape, Clip(h, polygon))
  {
    if polygon != [] {
      var last := polygon[|polygon| - 1];
      CloseShaped(shape, polygon);
      assert [] + [last] + polygon == [last] + polygon;
      ClipChainShaped(shape, h, [], last, polygon);
      hide Has;
      var out := Clip(h, polygon);
      if h.Keep(last) {
        RemoveShaped(shape, [], last, out);
      }
      assert [] + out == out && [] + [] + out == out;
    }
  }

  // ----- the area of a convex polygon has one sign -----

  /** The triangles from `o` to the edges of a chain. */
  function FanSum(o: Point, p: Point, chain: seq<Point>): real
    decreases |chain|
  {
    if chain == [] then 0.0 else Turn(o, p, chain[0]) + FanSum(o, chain[0], chain[1..])
  }

  lemma TurnIsCross(o: Point, p: Point, q: Point)
    ensures Turn(o, p, q) == Cross.Of(p, q) - Cross.Of(o, q) + Cross.Of(o, p)
  {}

  lemma {:induction false} FanChain(o: Point, p: Point, chain: seq<Point>)
    requires chain != []
    ensures ChainSum(Cross, p, chain) == FanSum(o, p, chain) + Cross.Of(o, chain[|chain| - 1]) - Cross.Of(o, p)
    decreases |chain|
  {
    TurnIsCross(o, p, chain[0]);
    hide Turn, Weight.Of;
    if |chain| > 1 {
      FanChain(o, chain[0], chain[1..]);
    } else {
      assert chain[1..] == [];
    }
  }

  lemma {:induction false} FanSign(ccw: bool, polygon: seq<Point>, i: nat)
    requires Convex(ccw, polygon) && 0 < i <= |polygon|
    ensures var f := FanSum(polygon[0], polygon[i - 1], polygon[i..]); if ccw then f >= 0.0 else f <= 0.0
    decreases |polygon| - i
  {
    if i < |polygon| {
      Triple(ccw, polygon, 0, i - 1, i);
      FanSign(ccw, polygon, i + 1);
      assert polygon[i..][1..] == polygon[i + 1..];
    }
  }

  /** Twice the signed area of a convex polygon has the sign of its turns. */
  lemma ConvexArea(ccw: bool, polygon: seq<Point>)
    requires Convex(ccw, polygon)
    ensures if ccw then Area2(polygon) >= 0.0 else Area2(polygon) <= 0.0
  {
    if polygon != [] {
      var n := |polygon| - 1;
      FanChain(polygon[0], polygon[n], polygon);
      FanSign(ccw, polygon, 1);
      TurnDegenerate(polygon[0], polygon[n]);
      assert FanSum(polygon[0], polygon[n], polygon) == FanSum(polygon[0], polygon[0], polygon[1..]);
    }
  }

  // ----- counting the written vertices -----

  function KeptCount(h: HalfPlane, chain: seq<Point>): nat {
    if chain == [] then 0 else (if h.Keep(chain[0]) then 1 else 0) + KeptCount(h, chain[1..])
  }

  function Crossings(h: HalfPlane, p: Point, chain: seq<Point>): nat
    decreases |chain|
  {
    if chain == [] then 0 else (if h.Keep(p) != h.Keep(chain[0]) then 1 else 0) + Crossings(h, chain[0], chain[1..])
  }

  lemma {:induction false} WrittenCount(h: HalfPlane, p: Point, chain: seq<Point>)
    ensures |ClipChain(h, p, chain)| == KeptCount(h, chain) + Crossings(h, p, chain)
    decreases |chain|
  {
    if chain != [] {
      WrittenCount(h, chain[0], chain[1..]);
    }
  }

  lemma {:induction false} SomeOutside(h: HalfPlane, chain: seq<Point>)
    ensures KeptCount(h, chain) <= |chain|
    ensures (exists i :: 0 <= i < |chain| && !h.Keep(chain[i])) ==> KeptCount(h, chain) < |chain|
  {
    if chain != [] {
      SomeOutside(h, chain[1..]);
      if exists i :: 0 <= i < |chain| && !h.Keep(chain[i]) {
        var i :| 0 <= i < |chain| && !h.Keep(chain[i]);
        assert i > 0 ==> chain[1..][i - 1] == chain[i];
      }
    }
  }

  lemma {:induction false} NoneOutside(h: HalfPlane, p: Point, chain: seq<Point>)
    requires h.Keep(p) && forall i :: 0 <= i < |chain| ==> h.Keep(chain[i])
    ensures Crossings(h, p, chain) == 0
    decreases |chain|
  {
    if chain != [] {
      NoneOutside(h, chain[0], chain[1..]);
    }
  }

  /** The first crossing of a chain. */
  lemma {:induction false} FirstCrossing(h: HalfPlane, p: Point, chain: seq<Point>) returns (k: nat)
    requires Crossings(h, p, chain) > 0
    ensures k < |chain| && h.Keep(chain[k]) != h.Keep(p)
    ensures Crossings(h, p, chain) == 1 + Crossings(h, chain[k], chain[k + 1..])
    decreases |chain|
  {
    if h.Keep(chain[0]) != h.Keep(p) {
      k := 0;
    } else {
      var j := FirstCrossing(h, chain[0], chain[1..]);
      k := j + 1;
      assert chain[1..][j + 1..] == chain[k + 1..];
    }
  }

  /** A tame chain crosses the border at most twice. */
  lemma AtMostTwoCrossings(h: HalfPlane, p: Point, chain: seq<Point>)
    requires Tame(h.vertical, [p] + chain)
    ensures Crossings(h, p, chain) <= 2
  {
    if Crossings(h, p, chain) >= 3 {
      var a := FirstCrossing(h, p, chain);
      var rest := chain[a + 1..];
      var b := FirstCrossing(h, chain[a], rest);
      var rest' := rest[b + 1..];
      var c := FirstCrossing(h, rest[b], rest');
      var all := [p] + chain;
      assert all[0] == p && all[a + 1] == chain[a] && all[a + b + 2] == rest[b] && all[a + b + c + 3] == rest'[c];
      assert Alternates(h.U(p), h.U(chain[a]), h.U(rest[b]), h.U(rest'[c]));
      Quadruple(h.vertical, all, 0, a + 1, a + b + 2, a + b + c + 3);
    }
  }

  /** A clip of a tame polygon writes at most one vertex more than it reads. */
  lemma ClipGrowth(h: HalfPlane, polygon: seq<Point>)
    requires Tame(h.vertical, polygon)
    ensures |Clip(h, polygon)| <= |polygon| + 1
  {
    if polygon != [] {
      var last := polygon[|polygon| - 1];
      CloseTame(h.vertical, polygon);
      AtMostTwoCrossings(h, last, polygon);
      WrittenCount(h, last, polygon);
      SomeOutside(h, polygon);
      if forall i :: 0 <= i < |polygon| ==> h.Keep(polygon[i]) {
        NoneOutside(h, last, polygon);
      }
    }
  }

  // ----- the drop's quadrilateral -----

  /** A strictly convex quadrilateral. */
  predicate StrictQuad(ccw: bool, q: seq<Point>) {
    && |q| == 4
    && Side(ccw, q[0], q[1], q[2]) > 0.0 && Side(ccw, q[1], q[2], q[3]) > 0.0
    && Side(ccw, q[2], q[3], q[0]) > 0.0 && Side(ccw, q[3], q[0], q[1]) > 0.0
  }

  /** The diagonals cross: weighted by the opposite triangles, both pairs of corners have the same mean. */
  lemma Diagonals(a: Point, b: Point, c: Point, d: Point)
    ensures Turn(b, c, d) + Turn(a, b, d) == Turn(a, c, d) + Turn(a, b, c)
    ensures Turn(b, c, d) * a.x + Turn(a, b, d) * c.x == Turn(a, c, d) * b.x + Turn(a, b, c) * d.x
    ensures Turn(b, c, d) * a.y + Turn(a, b, d) * c.y == Turn(a, c, d) * b.y + Turn(a, b, c) * d.y
  {}

  lemma SameMean(k: real, l: real, m: real, n: real, a: real, b: real, c: real, d: real)
    requires k > 0.0 && l > 0.0 && m > 0.0 && n > 0.0
    requires k + l == m + n && k * a + l * c == m * b + n * d
    ensures !Alternates(a, b, c, d)
  {
    if a > b && a > d && c > b && c > d {
      var top := if b > d then b else d;
      Products(k, a - top, l, c - top, m, top - b, n, top - d);
    } else if b > a && b > c && d > a && d > c {
      var top := if a > c then a else c;
      Products(m, b - top, n, d - top, k, top - a, l, top - c);
    }
  }

  lemma Products(k: real, a: real, l: real, c: real, m: real, b: real, n: real, d: real)
    requires k > 0.0 && l > 0.0 && m > 0.0 && n > 0.0 && a > 0.0 && c > 0.0 && b >= 0.0 && d >= 0.0
    ensures k * a + l * c > 0.0 && m * b + n * d >= 0.0
  {}

  lemma QuadShaped(ccw: bool, q: seq<Point>)
    requires StrictQuad(ccw, q)
    ensures Convex(ccw, q) && Tame(true, q) && Tame(false, q)
  {
    QuadConvex(ccw, q);
    assert q == [q[0], q[1], q[2], q[3]];
    QuadMeans(ccw, q[0], q[1], q[2], q[3]);
    hide *;
    FourTame(true, q);
    FourTame(false, q);
  }

  lemma QuadConvex(ccw: bool, q: seq<Point>)
    requires StrictQuad(ccw, q)
    ensures Convex(ccw, q)
  {
    SideCycle(ccw, q[2], q[3], q[0]);
    SideCycle(ccw, q[3], q[0], q[1]);
    hide Side;
  }

  lemma FourTame(vertical: bool, q: seq<Point>)
    requires |q| == 4 && !Alternates(Coordinate(vertical, q[0]), Coordinate(vertical, q[1]),
                                     Coordinate(vertical, q[2]), Coordinate(vertical, q[3]))
    ensures Tame(vertical, q)
  {
    hide Alternates, Coordinate;
  }

  lemma QuadMeans(ccw: bool, a: Point, b: Point, c: Point, d: Point)
    requires StrictQuad(ccw, [a, b, c, d])
    ensures !Alternates(Coordinate(true, a), Coordinate(true, b), Coordinate(true, c), Coordinate(true, d))
    ensures !Alternates(Coordinate(false, a), Coordinate(false, b), Coordinate(false, c), Coordinate(false, d))
  {
    SideCycle(ccw, c, d, a);
    SideCycle(ccw, d, a, b);
    DiagonalsSigned(ccw, a, b, c, d);
    var k, l, m, n := Side(ccw, b, c, d), Side(ccw, a, b, d), Side(ccw, a, c, d), Side(ccw, a, b, c);
    hide Turn, Side;
    SameMean(k, l, m, n, a.x, b.x, c.x, d.x);
    SameMean(k, l, m, n, a.y, b.y, c.y, d.y);
  }

  lemma DiagonalsSigned(ccw: bool, a: Point, b: Point, c: Point, d: Point)
    ensures Side(ccw, b, c, d) + Side(ccw, a, b, d) == Side(ccw, a, c, d) + Side(ccw, a, b, c)
    ensures Side(ccw, b, c, d) * a.x + Side(ccw, a, b, d) * c.x == Side(ccw, a, c, d) * b.x + Side(ccw, a, b, c) * d.x
    ensures Side(ccw, b, c, d) * a.y + Side(ccw, a, b, d) * c.y == Side(ccw, a, c, d) * b.y + Side(ccw, a, b, c) * d.y
  {
    Diagonals(a, b, c, d);
    var k, l, m, n := Turn(b, c, d), Turn(a, b, d), Turn(a, c, d), Turn(a, b, c);
    hide Turn;
    Negate(k, l, m, n, a.x, b.x, c.x, d.x);
    Negate(k, l, m, n, a.y, b.y, c.y, d.y);
  }

  lemma Negate(k: real, l: real, m: real, n: real, a: real, b: real, c: real, d: real)
    requires k * a + l * c == m * b + n * d
    ensures (-k) * a + (-l) * c == (-m) * b + (-n) * d
  {}
}
