/**
  Rust's primitive integer types `i8` to `u64`, as far as the ratio arithmetic
  uses them: their ranges, and `/`, which truncates toward zero.
*/
module Integers {

  datatype IntType = I8 | I16 | I32 | I64 | U8 | U16 | U32 | U64 {

    /** `<T>::MIN`: zero for the unsigned types, negative for the signed ones. */
    function Min(): (m: int)
      ensures m <= 0
    {
      match this
      case I8 => -0x80
      case I16 => -0x8000
      case I32 => -0x8000_0000
      case I64 => -0x8000_0000_0000_0000
      case _ => 0
    }

    /**
      `<T>::MAX`: at least `i8::MAX`; a signed type has one more negative value
      than positive ones, an unsigned type has none.
    */
    function Max(): (m: int)
      ensures m >= 0x7F
      ensures Min() == 0 || Min() == -m - 1
    {
      match this
      case I8 => 0x7F
      case I16 => 0x7FFF
      case I32 => 0x7FFF_FFFF
      case I64 => 0x7FFF_FFFF_FFFF_FFFF
      case U8 => 0xFF
      case U16 => 0xFFFF
      case U32 => 0xFFFF_FFFF
      case U64 => 0xFFFF_FFFF_FFFF_FFFF
    }

    /** The values of the type. */
    predicate Contains(x: int) {
      Min() <= x <= Max()
    }
  }

  function Abs(x: int): nat {
    if x < 0 then -x else x
  }

  /**
    What Rust's integer `/` promises of `q = a / b`: the remainder `a - q * b` is
    smaller than `b` in magnitude and is zero or has the sign of `a`.
  */
  predicate IsTruncatedQuotient(a: int, b: int, q: int) {
    var rem := a - q * b;
    Abs(rem) < Abs(b) && (rem == 0 || (rem < 0 <==> a < 0))
  }

  /**
    Rust's integer `/`: division truncating toward zero (unlike Dafny's `/`, which
    is Euclidean), computed from the quotient of the magnitudes.
  */
  function TruncDiv(a: int, b: int): (q: int)
    requires b != 0
    ensures IsTruncatedQuotient(a, b, q)
  {
    var m := Abs(a) / Abs(b);
    var q := if (a < 0) == (b < 0) then m else -m;
    DivMod(Abs(a), Abs(b));
    DivOfMagnitudes(a, b, q, m, Abs(a) % Abs(b));
    q
  }

  /** Dafny's `/` and `%` on naturals: quotient and remainder of Euclidean division. */
  lemma DivMod(x: nat, y: nat)
    requires y > 0
    ensures x == y * (x / y) + x % y && 0 <= x % y < y
  {
  }

  /**
    Dividing the magnitudes (`Abs(a) == Abs(b) * m + r`) and giving the quotient
    the sign of `a / b` leaves the remainder `r` with the sign of `a`.
  */
  lemma DivOfMagnitudes(a: int, b: int, q: int, m: int, r: int)
    requires b != 0 && Abs(a) == Abs(b) * m + r && 0 <= r < Abs(b)
    requires q == if (a < 0) == (b < 0) then m else -m
    ensures IsTruncatedQuotient(a, b, q)
  {
    var p := Abs(b) * m;
    if b < 0 {
      assert b * m == -p;
      if a < 0 { assert q * b == -p; } else { assert q * b == p; }
    } else {
      assert b * m == p;
      if a < 0 { assert q * b == -p; } else { assert q * b == p; }
    }
    assert a - q * b == if a < 0 then -r else r;
  }

  /** A truncated quotient is unique, so `IsTruncatedQuotient` defines `/` completely. */
  lemma TruncatedQuotientUnique(a: int, b: int, q1: int, q2: int)
    requires b != 0 && IsTruncatedQuotient(a, b, q1) && IsTruncatedQuotient(a, b, q2)
    ensures q1 == q2
  {
    var r1, r2 := a - q1 * b, a - q2 * b;
    assert (q2 - q1) * b == r1 - r2;
    if q1 != q2 {
      MagnitudeOfMultiple(q2 - q1, b);
    }
  }

  /** A non-zero multiple of `b` is at least `b` in magnitude. */
  lemma MagnitudeOfMultiple(k: int, b: int)
    requires k != 0
    ensures Abs(k * b) >= Abs(b)
  {
    var x: int, y: int := Abs(k), Abs(b);
    assert Abs(k * b) == x * y by {
      if k < 0 && b < 0 {
        assert k * b == x * y;
      } else if k < 0 {
        assert k * b == -(x * y);
      } else if b < 0 {
        assert k * b == -(x * y);
      } else {
        assert k * b == x * y;
      }
    }
    var z := x - 1;
    assert z * y >= 0;
    assert x * y == z * y + y;
  }

  /** When `b` divides `a` exactly, `a / b` is the exact quotient. */
  lemma DivExact(q: int, b: int)
    requires b != 0
    ensures TruncDiv(q * b, b) == q
  {
    assert IsTruncatedQuotient(q * b, b, q);
    TruncatedQuotientUnique(q * b, b, TruncDiv(q * b, b), q);
  }

  /** On non-negative operands Rust's `/` and Dafny's `/` agree. */
  lemma TruncDivNonNegative(a: nat, b: nat)
    requires b > 0
    ensures TruncDiv(a, b) == a / b
  {
    assert a == (a / b) * b + a % b;
    assert IsTruncatedQuotient(a, b, a / b);
    TruncatedQuotientUnique(a, b, TruncDiv(a, b), a / b);
  }

  /** The quotient of magnitudes is no larger than the dividend, and at most half of it for a divisor of two or more. */
  lemma QuotientOfMagnitudes(x: nat, y: nat)
    requires y >= 1
    ensures 0 <= x / y <= x
    ensures y >= 2 ==> 2 * (x / y) <= x
    ensures y == 1 ==> x / y == x
  {
    BoundedQuotient(x, y, x / y, x % y);
  }

  lemma BoundedQuotient(x: int, y: int, m: int, r: int)
    requires x >= 0 && y >= 1 && m >= 0 && 0 <= r < y && x == y * m + r
    ensures m <= x
    ensures y >= 2 ==> 2 * m <= x
    ensures y == 1 ==> m == x
  {
    assert y * m == m + (y - 1) * m;
    assert (y - 1) * m >= 0;
    if y >= 2 {
      assert y * m == 2 * m + (y - 2) * m;
      assert (y - 2) * m >= 0;
    } else {
      assert y * m == m;
    }
  }

  /**
    Rust's `/` stays within the type except for `MIN / -1`, whose exact value
    `MAX + 1` overflows.
  */
  lemma TruncDivInRange(t: IntType, a: int, b: int)
    requires t.Contains(a) && t.Contains(b) && b != 0
    ensures t.Contains(TruncDiv(a, b)) <==> !(a == t.Min() && b == -1)
  {
    var m := Abs(a) / Abs(b);
    var q := if (a < 0) == (b < 0) then m else -m;
    assert TruncDiv(a, b) == q;
    QuotientOfMagnitudes(Abs(a), Abs(b));
    SignedQuotientInRange(t, a, b, m, q);
  }

  lemma SignedQuotientInRange(t: IntType, a: int, b: int, m: int, q: int)
    requires t.Contains(a) && t.Contains(b) && b != 0
    requires 0 <= m <= Abs(a) && (Abs(b) >= 2 ==> 2 * m <= Abs(a)) && (Abs(b) == 1 ==> m == Abs(a))
    requires q == if (a < 0) == (b < 0) then m else -m
    ensures t.Contains(q) <==> !(a == t.Min() && b == -1)
  {
  }
}
