/**
 * Python's built-in `round` applied to the exact rational n / d.
 * `round` rounds to the nearest integer and breaks ties towards the even one.
 */
module Rounding {

  function Min(a: int, b: int): int { if a <= b then a else b }
  function Max(a: int, b: int): int { if a <= b then b else a }

  /** The integer nearest to n / d, ties going to the even neighbour. */
  function RoundHalfEven(n: int, d: int): (r: int)
    requires d > 0
    // r is within one half of n / d ...
    ensures -d <= 2 * (n - r * d) <= d
    // ... and on a tie it is the even one of the two candidates
    ensures 2 * (n - r * d) == d ==> r % 2 == 0
    ensures 2 * (n - r * d) == -d ==> r % 2 == 0
  {
    var q := n / d;
    var rem := n % d;
    assert n - q * d == rem;
    assert n - (q + 1) * d == rem - d;
    if 2 * rem < d then q
    else if 2 * rem > d then q + 1
    else if q % 2 == 0 then q
    else q + 1
  }

  lemma MulMonotone(x: int, y: int, d: int)
    requires d >= 0 && x <= y
    ensures x * d <= y * d
  {
    assert y * d - x * d == (y - x) * d;
  }

  /** Rounding never leaves an integer interval that contains n / d. */
  lemma RoundWithin(n: int, d: int, a: int, b: int)
    requires d > 0
    requires a * d <= n <= b * d
    ensures a <= RoundHalfEven(n, d) <= b
  {
    var r := RoundHalfEven(n, d);
    if r > b {
      assert (b + 1) * d == b * d + d;
      MulMonotone(b + 1, r, d);
    }
    if r < a {
      assert (a - 1) * d == a * d - d;
      MulMonotone(r, a - 1, d);
    }
  }

  /** An exact multiple of d rounds to its quotient. */
  lemma RoundExact(k: int, d: int)
    requires d > 0
    ensures RoundHalfEven(k * d, d) == k
  {
    RoundWithin(k * d, d, k, k);
  }

  /**
   * Linear interpolation of one top-left coordinate: the value at frame f on the
   * straight line from (lo, a) to (hi, b), rounded as Python's `round` does.
   * a + (f - lo) / (hi - lo) * (b - a) is written over the common denominator hi - lo.
   */
  function Interp(lo: int, a: int, hi: int, b: int, f: int): (r: int)
    requires lo < hi
    ensures f == lo ==> r == a
    ensures f == hi ==> r == b
    ensures lo <= f <= hi ==> Min(a, b) <= r <= Max(a, b)
  {
    InterpEndpointsAndBounds(lo, a, hi, b, f);
    RoundHalfEven(a * (hi - lo) + (f - lo) * (b - a), hi - lo)
  }

  lemma InterpEndpointsAndBounds(lo: int, a: int, hi: int, b: int, f: int)
    requires lo < hi
    ensures var r := RoundHalfEven(a * (hi - lo) + (f - lo) * (b - a), hi - lo);
      && (f == lo ==> r == a)
      && (f == hi ==> r == b)
      && (lo <= f <= hi ==> Min(a, b) <= r <= Max(a, b))
  {
    var d := hi - lo;
    var n := a * d + (f - lo) * (b - a);
    if f == lo {
      assert n == a * d;
      RoundExact(a, d);
    }
    if f == hi {
      assert n == b * d;
      RoundExact(b, d);
    }
    if lo <= f <= hi {
      InterpBounds(a, b, d, f - lo);
      RoundWithin(n, d, Min(a, b), Max(a, b));
    }
  }

  lemma InterpBounds(a: int, b: int, d: int, t: int)
    requires 0 <= t <= d
    ensures Min(a, b) * d <= a * d + t * (b - a) <= Max(a, b) * d
  {
    if a <= b {
      MulMonotone(0, t, b - a);
      MulMonotone(t, d, b - a);
      assert b * d == a * d + d * (b - a);
    } else {
      MulMonotone(0, t, a - b);
      MulMonotone(t, d, a - b);
      assert b * d == a * d - d * (a - b);
      assert t * (b - a) == -(t * (a - b));
    }
  }

}
