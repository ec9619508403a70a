// Weighted means of two sample values.

module Blend {

  function Times(a: real, b: real): real { a * b }

  /** The point a fraction t of the way from a to b. */
  function Mix(a: real, b: real, t: real): real { Times(a, 1.0 - t) + Times(b, t) }

  lemma MixBetween(a: real, b: real, t: real, lo: real, hi: real)
    requires 0.0 <= t <= 1.0 && lo <= a <= hi && lo <= b <= hi
    ensures lo <= Mix(a, b, t) <= hi
  {
    hide Times;
    Scale(1.0 - t, lo, a);
    Scale(1.0 - t, a, hi);
    Scale(t, lo, b);
    Scale(t, b, hi);
    MixSame(lo, t);
    MixSame(hi, t);
  }

  lemma MixSame(a: real, t: real)
    ensures Mix(a, a, t) == a
  {}

  lemma Scale(t: real, a: real, b: real)
    requires t >= 0.0 && a <= b
    ensures Times(a, t) <= Times(b, t)
  {}

  /** From a to b in proportion to t. */
  lemma MixIsLinear(a: real, b: real, t: real)
    ensures Mix(a, b, 0.0) == a && Mix(a, b, 1.0) == b && Mix(a, b, t) - a == t * (b - a)
  {}
}
