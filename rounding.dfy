/** Decimal rounding as Python's `round(x, 2)` does it on exact decimals:
    to the nearest value, ties to the even neighbour. */
module Rounding {

  function Abs(x: int): (r: nat)
    ensures r == x || r == -x
  {
    if x < 0 then -x else x
  }

  /** The integer nearest to n / d, ties going to the even one. */
  function RoundHalfEven(n: int, d: int): (q: int)
    requires d != 0
    ensures 2 * Abs(n - q * d) <= Abs(d)
    ensures 2 * Abs(n - q * d) == Abs(d) ==> q % 2 == 0
  {
    if d < 0 then
      var q := RoundPositive(-n, -d);
      NegateDifference(n, d, q);
      q
    else RoundPositive(n, d)
  }

  /** RoundHalfEven for a positive divisor. */
  function RoundPositive(n: int, d: int): (q: int)
    requires d > 0
    ensures 2 * Abs(n - q * d) <= d
    ensures 2 * Abs(n - q * d) == d ==> q % 2 == 0
  {
    var q0 := n / d;
    QuotientRemainder(n, d);
    var r := n - q0 * d;
    if 2 * r < d then q0
    else if 2 * r > d || q0 % 2 != 0 then
      NextMultiple(n, d, q0);
      q0 + 1
    else q0
  }

  lemma QuotientRemainder(n: int, d: int)
    requires d > 0
    ensures 0 <= n - (n / d) * d < d
  {
    assert n == (n / d) * d + n % d;
  }

  lemma NextMultiple(n: int, d: int, q: int)
    ensures n - (q + 1) * d == (n - q * d) - d
  {
  }

  lemma NegateDifference(n: int, d: int, q: int)
    ensures -n - q * -d == -(n - q * d)
  {
  }

  /** A quotient of at least k never rounds below k. */
  lemma RoundAtLeast(n: int, d: int, k: int)
    requires d > 0 && n >= k * d
    ensures RoundHalfEven(n, d) >= k
  {
    var q := RoundHalfEven(n, d);
    if q < k {
      var e := n - k * d;
      var m := k - q;
      calc {
        n - q * d;
        { assert q == k - m; }
        n - (k - m) * d;
        { assert (k - m) * d == k * d - m * d; }
        e + m * d;
      }
      MulAtLeast(m, d);
      assert false;
    }
  }

  lemma MulAtLeast(m: int, d: int)
    requires m >= 1 && d > 0
    ensures m * d >= d
  {
    assert m * d == (m - 1) * d + d;
  }

  /** For an even k, n / d rounds to k or more exactly when it is at least
      k - 1/2: the tie at k - 1/2 goes to the even k. */
  lemma RoundReachesIff(n: int, d: int, k: int)
    requires d != 0 && k % 2 == 0
    ensures d > 0 ==> (RoundHalfEven(n, d) >= k <==> 2 * n >= (2 * k - 1) * d)
    ensures d < 0 ==> (RoundHalfEven(n, d) >= k <==> 2 * n <= (2 * k - 1) * d)
  {
    if d > 0 {
      RoundPositiveReaches(n, d, k);
    } else {
      RoundPositiveReaches(-n, -d, k);
      assert (2 * k - 1) * -d == -((2 * k - 1) * d);
    }
  }

  lemma RoundPositiveReaches(n: int, d: int, k: int)
    requires d > 0 && k % 2 == 0
    ensures RoundPositive(n, d) >= k <==> 2 * n >= (2 * k - 1) * d
  {
    var q := RoundPositive(n, d);
    if q >= k {
      ReachedFromAbove(n, d, k, q);
    }
    if 2 * n >= (2 * k - 1) * d {
      ReachedFromBelow(n, d, k, q);
    }
  }

  /** A nearest q of at least k puts n / d at k - 1/2 or more. */
  lemma ReachedFromAbove(n: int, d: int, k: int, q: int)
    requires d > 0 && q >= k && 2 * Abs(n - q * d) <= d
    ensures 2 * n >= (2 * k - 1) * d
  {
    Products(k, d);
    MulMonotone(q, k, d);
  }

  /** From k - 1/2 upwards the nearest even-on-ties q is at least k. */
  lemma ReachedFromBelow(n: int, d: int, k: int, q: int)
    requires d > 0 && k % 2 == 0 && 2 * n >= (2 * k - 1) * d
    requires 2 * Abs(n - q * d) <= d
    requires 2 * Abs(n - q * d) == d ==> q % 2 == 0
    ensures q >= k
  {
    if q < k {
      Products(k, d);
      MulMonotone(k - 1, q, d);
      if q <= k - 2 {
        MulMonotone(k - 2, q, d);
      }
      assert false;
    }
  }

  lemma Products(k: int, d: int)
    ensures (2 * k - 1) * d == 2 * (k * d) - d
    ensures (k - 1) * d == k * d - d
    ensures (k - 2) * d == k * d - 2 * d
  {
  }

  lemma MulMonotone(a: int, b: int, d: int)
    requires a >= b && d > 0
    ensures a * d >= b * d
  {
    assert a * d - b * d == (a - b) * d;
  }
}
