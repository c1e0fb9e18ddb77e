/** Numeric building blocks shared by the colour-space and print-preparation models:
    Python/numpy rounding (half to even), the clamp to the 8-bit range, Python's
    truncating int() on floats and Python's normalisation of slice bounds. */
module Numeric {

  /** numpy's `.round()` and Python's `round()`: nearest integer, ties to the even one. */
  function RoundHalfEven(x: real): (n: int)
    ensures -0.5 <= x - n as real <= 0.5
    ensures x - n as real == 0.5 || x - n as real == -0.5 ==> n % 2 == 0
  {
    var f := x.Floor;
    var d := x - f as real;
    if d < 0.5 then f
    else if d > 0.5 then f + 1
    else if f % 2 == 0 then f else f + 1
  }

  /** The two properties in RoundHalfEven's contract single out its result. */
  lemma RoundHalfEvenUnique(x: real, n: int)
    requires -0.5 <= x - n as real <= 0.5
    requires x - n as real == 0.5 || x - n as real == -0.5 ==> n % 2 == 0
    ensures RoundHalfEven(x) == n
  {
  }

  lemma RoundOfInteger(n: int)
    ensures RoundHalfEven(n as real) == n
  {
    RoundHalfEvenUnique(n as real, n);
  }

  /** Rounding never crosses an integer bound that lies half a unit away. */
  lemma RoundBelowBound(x: real, k: int)
    ensures RoundHalfEven(x) <= k <==> x < k as real + 0.5 || (x == k as real + 0.5 && k % 2 == 0)
  {
  }

  /** The in-place clamp `a[a > 255] = 255; a[a < 0] = 0` followed by the uint8 cast,
      which is exact once the value lies in [0, 255]. */
  function Clamp8(n: int): (r: int)
    ensures 0 <= r <= 255
    ensures 0 <= n <= 255 ==> r == n
    ensures n > 255 ==> r == 255
    ensures n < 0 ==> r == 0
  {
    var capped := if n > 255 then 255 else n;
    if capped < 0 then 0 else capped
  }

  /** Python's `int(x)` on a float: truncation toward zero. */
  function Trunc(x: real): (n: int)
    ensures 0.0 <= x ==> 0 <= n && n as real <= x < n as real + 1.0
    ensures x < 0.0 ==> n <= 0 && n as real - 1.0 < x <= n as real
  {
    if x >= 0.0 then x.Floor else -((-x).Floor)
  }

  /** Python's normalisation of a slice bound `k` against a length `n`: a negative
      bound counts from the end, and the result is clipped to [0, n]. */
  function SliceBound(k: int, n: nat): (r: nat)
    ensures r <= n
    ensures 0 <= k <= n ==> r == k
    ensures -(n as int) <= k < 0 ==> r == n + k
    ensures k < -(n as int) ==> r == 0
    ensures k > n ==> r == n
  {
    if k < 0 then (if k + n < 0 then 0 else k + n)
    else if k > n then n
    else k
  }

  /** `int(c * L / 2100)` for a non-negative integer L is plain integer division. */
  lemma TruncOfRatio(c: nat, longEdge: nat)
    ensures Trunc(c as real * (longEdge as real / 2100.0)) == c * longEdge / 2100
    ensures Trunc(-(c as real) * (longEdge as real / 2100.0)) == -(c * longEdge / 2100)
  {
    var q := c * longEdge / 2100;
    var x := c as real * (longEdge as real / 2100.0);
    assert c * longEdge == q * 2100 + c * longEdge % 2100;
    assert x == (c * longEdge) as real / 2100.0;
    assert q as real <= x < q as real + 1.0;
    assert x.Floor == q;
  }
}
