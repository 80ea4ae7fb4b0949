/**
  Unsigned fixed-width integers as the `num` traits used by the instant code see
  them: a value of an N-bit unsigned type is a natural number below 2^N,
  `max_value()` is 2^N - 1, and `wrapping_add` / `wrapping_sub` compute modulo 2^N.
*/
module Wrapping {

  /** Width in bits of an unsigned tick type; Rust's narrowest unsigned integer is `u8`. */
  type Bits = b: nat | 8 <= b witness 8

  function Pow2(n: nat): (r: nat)
    ensures r >= 1
  {
    if n == 0 then 1 else 2 * Pow2(n - 1)
  }

  lemma {:induction false} Pow2Monotone(m: nat, n: nat)
    requires m <= n
    ensures Pow2(m) <= Pow2(n)
  {
    if m < n {
      Pow2Monotone(m, n - 1);
    }
  }

  /** The number of distinct values of the type: 2^N. */
  function Modulus(b: Bits): (m: nat)
    ensures m >= 256 && m % 2 == 0
  {
    Pow2Monotone(8, b);
    Pow2(b)
  }

  /** Every value of the N-bit unsigned type. */
  predicate Fits(b: Bits, x: nat) {
    x < Modulus(b)
  }

  /** `max_value()`: the largest value of the type. */
  function Max(b: Bits): (m: nat)
    ensures Fits(b, m) && !Fits(b, m + 1)
  {
    Modulus(b) - 1
  }

  /** `max_value() / 2`, the half-period bound; since 2^N is even it is 2^(N-1) - 1. */
  function HalfMax(b: Bits): (h: nat)
    ensures 2 * h + 2 == Modulus(b)
    ensures h >= 1
  {
    Max(b) / 2
  }

  /** A multiple of m strictly between -m and m is zero. */
  lemma MultipleBetween(m: int, k: int)
    requires m > 0 && -m < m * k < m
    ensures k == 0
  {
  }

  /** Reducing a value that is less than one period away from [0, m). */
  lemma ModNear(a: int, m: int)
    requires m > 0 && -m <= a < 2 * m
    ensures a % m == if a < 0 then a + m else if a < m then a else a - m
  {
    var r := if a < 0 then a + m else if a < m then a else a - m;
    var k := if a < 0 then -1 else if a < m then 0 else 1;
    assert a == m * k + r;
    assert a == m * (a / m) + a % m;
    assert m * (a / m - k) == r - a % m;
    MultipleBetween(m, a / m - k);
  }

  /** `x.wrapping_add(&y)`: the sum reduced modulo 2^N. */
  function WrappingAdd(b: Bits, x: nat, y: nat): (r: nat)
    requires Fits(b, x) && Fits(b, y)
    ensures Fits(b, r)
    ensures r == x + y || r + Modulus(b) == x + y
  {
    ModNear(x + y, Modulus(b));
    (x + y) % Modulus(b)
  }

  /** `x.wrapping_sub(&y)`: the difference reduced modulo 2^N (Dafny's `%` never yields a negative value). */
  function WrappingSub(b: Bits, x: nat, y: nat): (r: nat)
    requires Fits(b, x) && Fits(b, y)
    ensures Fits(b, r)
    ensures r + y == x || r + y == x + Modulus(b)
  {
    ModNear(x - y, Modulus(b));
    (x - y) % Modulus(b)
  }

  /** Adding k and then subtracting k gives back the value, whatever the wrap-around. */
  lemma AddThenSub(b: Bits, x: nat, k: nat)
    requires Fits(b, x) && Fits(b, k)
    ensures WrappingSub(b, WrappingAdd(b, x, k), k) == x
    ensures WrappingSub(b, WrappingAdd(b, x, k), x) == k
  {
  }

  /** Subtracting k and then adding k gives back the value, whatever the wrap-around. */
  lemma SubThenAdd(b: Bits, x: nat, k: nat)
    requires Fits(b, x) && Fits(b, k)
    ensures WrappingAdd(b, WrappingSub(b, x, k), k) == x
    ensures WrappingSub(b, x, WrappingSub(b, x, k)) == k
  {
  }
}
