/** The two C conversions from a floating value to an integer that the mixer
    arithmetic relies on, stated over mathematical reals. */
module CNumeric {

  /** The C conversion `(long)x`: truncation toward zero. */
  function Trunc(x: real): (n: int)
    ensures 0.0 <= x ==> n as real <= x < n as real + 1.0
    ensures x < 0.0 ==> n as real - 1.0 < x <= n as real
  {
    if 0.0 <= x then x.Floor else -((-x).Floor)
  }

  /** The C library `round(x)`: nearest integer, halfway cases away from zero. */
  function Round(x: real): (n: int)
    ensures 0.0 <= x ==> n as real - 0.5 <= x < n as real + 0.5
    ensures x < 0.0 ==> n as real - 0.5 < x <= n as real + 0.5
  {
    if 0.0 <= x then (x + 0.5).Floor else -((-x + 0.5).Floor)
  }

  /** A value of an integer is kept by both conversions. */
  lemma IntegersAreFixed(k: int)
    ensures Trunc(k as real) == k
    ensures Round(k as real) == k
  {
  }

  /** `m + t * s` runs from `m` to `m + s` as the fraction `t` runs from 0
      to 1. */
  lemma FractionOfSpan(m: real, t: real, s: real)
    requires 0.0 <= t <= 1.0
    ensures t == 0.0 ==> m + t * s == m
    ensures t == 1.0 ==> m + t * s == m + s
    ensures 0.0 <= s ==> m <= m + t * s <= m + s
  {
    if 0.0 <= s {
      assert t * s <= 1.0 * s;
    }
  }

  /** Dividing by a positive `s` keeps an order relation. */
  lemma DivideBoth(a: real, b: real, s: real)
    requires 0.0 < s
    requires a <= b
    ensures a / s <= b / s
  {
  }
}
