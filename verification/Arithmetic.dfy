/** Small facts about products and quotients of naturals, kept apart so that other proofs stay linear. */
module Arithmetic {

  lemma MulMonotone(a: nat, b: nat, g: nat)
    requires a <= b
    ensures a * g <= b * g
    ensures a < b ==> a * g + g <= b * g
  {
    assert b * g == a * g + (b - a) * g;
    if a < b {
      assert (b - a) * g == g + (b - a - 1) * g;
    }
  }

  /** k = ceil(a / n) is the first block of n that starts at or after a. */
  lemma CeilDiv(a: nat, n: nat, b: nat)
    requires n > 0
    ensures b >= (a + n - 1) / n <==> b * n >= a
  {
    var k := (a + n - 1) / n;
    assert a + n - 1 == k * n + (a + n - 1) % n;
    if b >= k {
      MulMonotone(k, b, n);
    } else {
      MulMonotone(b, k, n);
    }
  }

  /** The row of a pixel lies inside a map of whole rows. */
  lemma RowFits(pixel: nat, width: nat, rows: nat)
    requires 0 < width && pixel < rows * width
    ensures pixel % width < width && pixel - pixel % width + width <= rows * width
  {
    var q := pixel / width;
    assert pixel == q * width + pixel % width;
    if q >= rows {
      MulMonotone(rows, q, width);
    } else {
      MulMonotone(q, rows, width);
    }
  }

  /** The column and the row of a pixel. */
  lemma PixelAt(pixel: nat, width: nat, row: nat, column: nat)
    requires column < width && pixel == row * width + column
    ensures pixel % width == column && pixel / width == row
  {
    var q := pixel / width;
    assert pixel == q * width + pixel % width;
    if q < row {
      MulMonotone(q, row, width);
    } else {
      MulMonotone(row, q, width);
    }
  }
}
