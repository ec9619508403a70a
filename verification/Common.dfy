// Notions that several parts of the program share.

module Common {

  datatype Option<T> = None | Some(value: T) {
    function Or(default: T): T { match this case None => default case Some(v) => v }
  }

  function Min(a: int, b: int): int { if a <= b then a else b }

  function Max(a: int, b: int): int { if a >= b then a else b }

  /** Conversion from floating point to an integer: towards zero. */
  function Truncate(r: real): int { if r >= 0.0 then r.Floor else -((-r).Floor) }

  /** It stays between any integers that bound the value. */
  lemma TruncateStaysInHull(r: real, lo: int, hi: int)
    requires lo as real <= r <= hi as real
    ensures lo <= Truncate(r) <= hi
  {}

  /** It drops the fraction, on either side of zero. */
  lemma TruncateTowardsZero(r: real)
    ensures r >= 0.0 ==> 0.0 <= Truncate(r) as real <= r < Truncate(r) as real + 1.0
    ensures r <= 0.0 ==> Truncate(r) as real - 1.0 < r <= Truncate(r) as real <= 0.0
  {}
}
