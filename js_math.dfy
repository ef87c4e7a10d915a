/**
 * `Math.round((part / whole) * 100)` on whole numbers, done exactly: the nearest whole
 * percentage, with halves rounded up as `Math.round` rounds them.
 */
module JsMath {

  /** The rounded percentage `part` is of `whole`. */
  function RoundPercent(part: nat, whole: nat): (p: nat)
    requires whole > 0
    ensures 2 * whole * p <= 200 * part + whole < 2 * whole * p + 2 * whole
  {
    (200 * part + whole) / (2 * whole)
  }

  /** A part of a whole is between 0 and 100 percent of it, 100 for the whole and 0 for
      nothing (a part just short of the whole may round up to 100 as well). */
  lemma PercentBounded(part: nat, whole: nat)
    requires 0 < whole && part <= whole
    ensures RoundPercent(part, whole) <= 100
    ensures part == whole ==> RoundPercent(part, whole) == 100
    ensures part == 0 ==> RoundPercent(part, whole) == 0
  {
    var p := RoundPercent(part, whole);
    assert p <= 100 by {
      if p >= 101 {
        ScaleUp(2 * whole, 101, p);
      }
    }
    if part == whole && p < 100 {
      ScaleUp(2 * whole, p + 1, 100);
    }
    if part == 0 && p > 0 {
      ScaleUp(2 * whole, 1, p);
    }
  }

  /** Of five, each part is a fifth: 20 percent apiece. */
  lemma FifthsExact(part: nat)
    requires part <= 5
    ensures RoundPercent(part, 5) == 20 * part
  {
    assert 200 * part + 5 == 10 * (20 * part) + 5;
  }

  /** Multiplying by a natural number keeps the order. */
  lemma ScaleUp(x: nat, a: nat, b: nat)
    requires a <= b
    ensures x * a <= x * b
  {
    assert x * b == x * a + x * (b - a);
  }
}
