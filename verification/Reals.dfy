/** Real numbers where the source has floating point: absolute value, minimum, maximum, and facts about products. */
module Reals {

  function Abs(x: real): real { if x < 0.0 then -x else x }

  function Min(a: real, b: real): real { if b < a then b else a }

  function Max(a: real, b: real): real { if a < b then b else a }

  /** A square root over the reals; where the source rounds, the model does not. */
  ghost predicate IsRoot(root: real -> real) {
    forall x :: x >= 0.0 ==> root(x) >= 0.0 && root(x) * root(x) == x
  }

  lemma SameProduct(p: real, q: real, a: real)
    requires p == q
    ensures p * a == q * a
  {}

  lemma Times(a: real, b: real)
    ensures a >= 0.0 && b >= 0.0 ==> a * b >= 0.0
    ensures a > 0.0 && b > 0.0 ==> a * b > 0.0
  {}

  lemma TimesQuotient(n: real, d: real, q: real)
    requires d != 0.0 && q == n / d
    ensures q * d == n
  {}

  lemma OverOne(a: real, d: real)
    requires d == 1.0
    ensures a / d == a
  {}

  lemma SquareOrder(r: real, x: real)
    requires 0.0 <= r < x
    ensures r * r < x * x
  {
    var low, high := x - r, x + r;
    Times(low, high);
    assert low * high == x * x - r * r;
  }
}
