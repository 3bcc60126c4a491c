/**
 * Fixed-point arithmetic for the portal's DecimalField(max_digits=5,
 * decimal_places=2) columns, which this model stores as whole hundredths,
 * and the half-to-even rounding that Python's Decimal applies in round().
 */
module Decimals {

  /** The largest magnitude a max_digits=5, decimal_places=2 column holds: 999.99. */
  const MAX_HUNDREDTHS: int := 99999

  predicate FitsDecimal(x: int) {
    -MAX_HUNDREDTHS <= x <= MAX_HUNDREDTHS
  }

  function Abs(x: int): int {
    if x < 0 then -x else x
  }

  /**
   * The integer nearest to n / d, ties going to the even neighbour
   * (Python's ROUND_HALF_EVEN, the default Decimal rounding).
   */
  function RoundHalfEven(n: int, d: int): (q: int)
    requires d != 0
    ensures 2 * Abs(n - q * d) <= Abs(d)
    ensures 2 * Abs(n - q * d) == Abs(d) ==> q % 2 == 0
    decreases if d < 0 then 1 else 0
  {
    if d < 0 then
      var q := RoundHalfEven(-n, -d);
      MulNeg(q, d);
      q
    else
      var fl, rem := n / d, n % d;
      DivSplit(n, d);
      if 2 * rem < d then fl
      else if 2 * rem > d then fl + 1
      else if fl % 2 == 0 then fl
      else fl + 1
  }

  /** Euclidean division by a positive d leaves n % d below the quotient's multiple and d below the next. */
  lemma DivSplit(n: int, d: int)
    requires d > 0
    ensures n - (n / d) * d == n % d
    ensures n - (n / d + 1) * d == n % d - d
  {
    assert (n / d + 1) * d == (n / d) * d + d;
  }

  lemma MulNeg(q: int, d: int)
    ensures q * -d == -(q * d)
  {
  }

  /** Multiplying by a positive number keeps the order of its factors. */
  lemma MulMonotone(a: int, b: int, d: int)
    requires a <= b && d > 0
    ensures a * d <= b * d
  {
    assert b * d - a * d == (b - a) * d;
  }

  /** The converse of MulMonotone: a smaller multiple of a positive number has the smaller factor. */
  lemma MulCancel(a: int, b: int, d: int)
    requires d > 0 && a * d < b * d
    ensures a < b
  {
    if b <= a {
      MulMonotone(b, a, d);
      assert false;
    }
  }

  /** Rounding a quotient that lies in [0, k] keeps it in [0, k]. */
  lemma RoundHalfEvenWithin(n: int, d: int, k: int)
    requires d > 0 && 0 <= n <= k * d
    ensures 0 <= RoundHalfEven(n, d) <= k
  {
    var q := RoundHalfEven(n, d);
    assert -d < n - q * d < d;
    MulCancel(-1, q, d);
    assert (k + 1) * d == k * d + d;
    MulCancel(q, k + 1, d);
  }
}
