/**
 * Rounding a rational number num/den (den > 0) to an integer, the two ways the scoring code does it:
 * JavaScript's Math.round (halves go up) and Python's round (halves go to the even neighbour).
 * Written on integers, so the bounds read "r - 1/2 <= num/den < r + 1/2" multiplied out by 2*den.
 */
module Rounding {

  /** Math.round(num / den): the nearest integer, a half rounded towards +infinity. */
  function RoundHalfUp(num: int, den: int): (r: int)
    requires den > 0
    ensures 2 * den * r - den <= 2 * num < 2 * den * r + den
  {
    var q := (2 * num + den) / (2 * den);
    assert 2 * num + den == q * (2 * den) + (2 * num + den) % (2 * den);
    q
  }

  /** round(num / den) in Python 3: the nearest integer, a half rounded to the even neighbour. */
  function RoundHalfEven(num: int, den: int): (r: int)
    requires den > 0
    ensures -den <= 2 * num - 2 * den * r <= den
    ensures (2 * num - 2 * den * r == den || 2 * num - 2 * den * r == -den) ==> r % 2 == 0
  {
    var up := RoundHalfUp(num, den);
    if 2 * num + den == 2 * den * up && up % 2 != 0 then up - 1 else up
  }

  /** num/den lies exactly half-way between two integers. */
  predicate IsHalfway(num: int, den: int)
    requires den > 0
  {
    (2 * num + den) % (2 * den) == 0
  }

  /** Away from a half-way point both rules pick the one nearest integer. */
  lemma RoundingsAgreeOffHalfway(num: int, den: int)
    requires den > 0
    requires !IsHalfway(num, den)
    ensures RoundHalfUp(num, den) == RoundHalfEven(num, den)
  {
  }

  /** At a half-way point the two rules differ exactly when rounding up lands on an odd integer,
      and then Python's result is one less. */
  lemma RoundingsAtHalfway(num: int, den: int)
    requires den > 0
    requires IsHalfway(num, den)
    ensures RoundHalfEven(num, den) != RoundHalfUp(num, den) <==> RoundHalfUp(num, den) % 2 == 1
    ensures RoundHalfEven(num, den) != RoundHalfUp(num, den) ==> RoundHalfEven(num, den) == RoundHalfUp(num, den) - 1
  {
    var up := RoundHalfUp(num, den);
    var q := (2 * num + den) / (2 * den);
    assert 2 * num + den == q * (2 * den);
    assert q == up;
  }

  lemma MulMonotone(c: int, a: int, b: int)
    requires c >= 0 && a <= b
    ensures c * a <= c * b
  {
    assert c * b - c * a == c * (b - a);
  }

  /** An integer within a half of num/den lies within any integer bounds num/den lies within. */
  lemma NearestStaysInBounds(num: int, den: int, r: int, lo: int, hi: int)
    requires den > 0
    requires -den <= 2 * num - 2 * den * r <= den
    requires den * lo <= num <= den * hi
    ensures lo <= r <= hi
  {
    var p := den * r;
    assert 2 * den * r == 2 * p;
    assert den * (lo - 1) == den * lo - den;
    assert den * (hi + 1) == den * hi + den;
    if r < lo {
      MulMonotone(den, r, lo - 1);
    }
    if r > hi {
      MulMonotone(den, hi + 1, r);
    }
  }
}
