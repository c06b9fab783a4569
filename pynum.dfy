/**
 * Python's numeric builtins as the nodes use them, over unbounded `int` and exact `real`:
 * `int(x)` on a float, `//` and the `max(lo, min(x, hi))` clamp idiom.
 */
module PyNum {

  /** `int(x)` for a float `x`: truncation toward zero. */
  function Trunc(x: real): (r: int)
    ensures x >= 0.0 ==> 0 <= r && r as real <= x < r as real + 1.0
    ensures x < 0.0 ==> r <= 0 && r as real - 1.0 < x <= r as real
  {
    if x >= 0.0 then x.Floor else -((-x).Floor)
  }

  /** Truncation is the identity on whole numbers. */
  lemma TruncOfInt(n: int)
    ensures Trunc(n as real) == n
  {
  }

  /** Truncation keeps the order of non-negative numbers. */
  lemma TruncMonotone(x: real, y: real)
    ensures 0.0 <= x <= y ==> Trunc(x) <= Trunc(y)
  {
  }

  /** Python `a // b`: the quotient rounded toward negative infinity. */
  function FloorDiv(a: int, b: int): (q: int)
    requires b != 0
    ensures b > 0 ==> q * b <= a < q * b + b
    ensures b < 0 ==> q * b >= a > q * b + b
  {
    if b > 0 then a / b
    else if a % -b == 0 then -(a / -b)
    else -(a / -b) - 1
  }

  /** `max(lo, min(x, hi))` on integers. */
  function ClampInt(x: int, lo: int, hi: int): (r: int)
    ensures lo <= hi ==> lo <= r <= hi
    ensures lo <= x <= hi ==> r == x
    ensures lo > hi ==> r == lo
    ensures x < lo ==> r == lo
    ensures lo <= hi < x ==> r == hi
  {
    var m := if x < hi then x else hi;
    if lo > m then lo else m
  }

  /** `max(lo, min(x, hi))` on floats. */
  function ClampReal(x: real, lo: real, hi: real): (r: real)
    ensures lo <= hi ==> lo <= r <= hi
    ensures lo <= x <= hi ==> r == x
    ensures lo > hi ==> r == lo
    ensures x < lo ==> r == lo
    ensures lo <= hi < x ==> r == hi
  {
    var m := if x < hi then x else hi;
    if lo > m then lo else m
  }

  /** A clamp is idempotent. */
  lemma ClampRealIdempotent(x: real, lo: real, hi: real)
    ensures ClampReal(ClampReal(x, lo, hi), lo, hi) == ClampReal(x, lo, hi)
  {
  }

  /** `int(np.sqrt(n))` for a whole number `n`: the integer square root. */
  function ISqrt(n: nat): (r: nat)
    ensures r * r <= n < (r + 1) * (r + 1)
  {
    if n == 0 then 0
    else
      var k := ISqrt(n - 1);
      if (k + 1) * (k + 1) <= n then k + 1 else k
  }

  /** `int(np.ceil(a / b))` for whole numbers with `b > 0`. */
  function CeilDiv(a: nat, b: nat): (q: nat)
    requires b > 0
    ensures (q - 1) * b < a <= q * b
  {
    (a + b - 1) / b
  }
}
