/** The few JavaScript `Math` and `%` operations the widgets use, restricted to integers.
    Dafny's `%` is Euclidean (never negative); JavaScript's takes the sign of the dividend. */
module JsMath {

  function Abs(x: int): (r: int)
    ensures r >= 0
    ensures r == x || r == -x
  {
    if x < 0 then -x else x
  }

  function Min(a: int, b: int): (r: int)
    ensures r <= a && r <= b
    ensures r == a || r == b
  {
    if a <= b then a else b
  }

  function Max(a: int, b: int): (r: int)
    ensures r >= a && r >= b
    ensures r == a || r == b
  {
    if a >= b then a else b
  }

  /** JavaScript's `a % b` for a positive divisor: truncated division, so the remainder has the
      sign of `a`. On a non-negative dividend it agrees with Dafny's `%`. Every divisor in the
      widgets is a list length already known to be positive (`x % 0` would be `NaN`). */
  function Rem(a: int, b: int): (r: int)
    requires b > 0
    ensures a >= 0 ==> r == a % b
    ensures a >= 0 ==> 0 <= r < b
    ensures a <= 0 ==> -b < r <= 0
    ensures 0 <= a < b ==> r == a
    ensures (a - r) % b == 0
  {
    if a >= 0 then
      var r := a % b;
      NonNegativeRem(a, b, r);
      r
    else
      var r := -((-a) % b);
      NegativeRem(a, b, r);
      r
  }

  /** On a non-negative dividend the remainder lies in [0, b), is the dividend itself when that
      is already below `b`, and differs from it by a multiple of `b`. */
  lemma NonNegativeRem(a: int, b: int, r: int)
    requires b > 0 && a >= 0 && r == a % b
    ensures 0 <= r < b && (a < b ==> r == a) && (a - r) % b == 0
  {
    var q := a / b;
    assert a == q * b + r;
    if a < b {
      ModUnique(a, b, 0, a);
    }
    assert a - r == q * b + 0;
    ModUnique(a - r, b, q, 0);
  }

  /** On a negative dividend the remainder lies in (-b, 0] and differs from the dividend by a
      multiple of `b`. */
  lemma NegativeRem(a: int, b: int, r: int)
    requires b > 0 && a < 0 && r == -((-a) % b)
    ensures -b < r <= 0 && (a - r) % b == 0
  {
    var q, m := (-a) / b, (-a) % b;
    assert -a == q * b + m;
    assert a - r == (-q) * b + 0;
    ModUnique(a - r, b, -q, 0);
  }

  /** The Euclidean remainder is determined by any decomposition with an in-range remainder. */
  lemma ModUnique(x: int, n: int, q: int, m: int)
    requires n > 0 && 0 <= m < n && x == q * n + m
    ensures x % n == m
  {
    var q', m' := x / n, x % n;
    assert x == q' * n + m';
    assert (q - q') * n == m' - m;
    if q > q' {
      MulAtLeast(q - q', n);
    } else if q < q' {
      MulAtLeast(q' - q, n);
    }
  }

  lemma MulAtLeast(d: int, n: int)
    requires n > 0 && d >= 1
    ensures d * n >= n
  {
  }

  /** `Math.max(lo, Math.min(x, hi))`: the value of [lo, hi] nearest to `x`, or `lo` when the
      range is empty. */
  function Clamp(x: int, lo: int, hi: int): (r: int)
    ensures lo <= hi ==> lo <= r <= hi
    ensures lo <= x <= hi ==> r == x
    ensures lo <= hi < x ==> r == hi
    ensures x < lo ==> r == lo
    ensures hi < lo ==> r == lo
  {
    Max(lo, Min(x, hi))
  }
}
