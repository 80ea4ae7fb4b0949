/**
  A simple rational number (src/ratio.rs): a numerator and a denominator of one
  integer type, and the product and quotient of an integer by such a ratio,
  computed in the integer's own type with the multiplication first.
*/
module Ratios {
  import opened Integers

  /** `Ratio<T>`: both fields are values of the same integer type. */
  datatype Ratio = Ratio(numerator: int, denominator: int)

  predicate ValidFor(t: IntType, r: Ratio) {
    t.Contains(r.numerator) && t.Contains(r.denominator)
  }

  /** `Ratio::new`: stores both values as given; a zero denominator is accepted, and nothing is reduced. */
  function New(t: IntType, numerator: int, denominator: int): (r: Ratio)
    requires t.Contains(numerator) && t.Contains(denominator)
    ensures ValidFor(t, r)
    ensures r.numerator == numerator && r.denominator == denominator
  {
    Ratio(numerator, denominator)
  }

  /** `PartialEq::eq`: both numerators equal and both denominators equal. */
  function Eq(r: Ratio, s: Ratio): (b: bool)
    ensures b <==> r == s
  {
    r.numerator == s.numerator && r.denominator == s.denominator
  }

  /**
    When Rust's `a / b` is defined in type `t`: a non-zero divisor, and not
    `MIN / -1`, the one quotient that overflows.
  */
  predicate QuotientDefined(t: IntType, a: int, b: int) {
    b != 0 && !(a == t.Min() && b == -1)
  }

  /**
    When `x * r` neither overflows nor panics: `x * numerator` fits in the type
    and dividing it by the denominator is defined.
  */
  predicate MulDefined(t: IntType, x: int, r: Ratio) {
    t.Contains(x) && ValidFor(t, r) && t.Contains(x * r.numerator) && QuotientDefined(t, x * r.numerator, r.denominator)
  }

  /**
    When `x / r` neither overflows nor panics: `x * denominator` fits in the type
    and dividing it by the numerator is defined.
  */
  predicate DivDefined(t: IntType, x: int, r: Ratio) {
    t.Contains(x) && ValidFor(t, r) && t.Contains(x * r.denominator) && QuotientDefined(t, x * r.denominator, r.numerator)
  }

  /**
    `x * r`: `x * numerator`, then divided by the denominator truncating toward
    zero; the result is a value of the type.
  */
  function Mul(t: IntType, x: int, r: Ratio): (y: int)
    requires MulDefined(t, x, r)
    ensures t.Contains(y)
    ensures IsTruncatedQuotient(x * r.numerator, r.denominator, y)
  {
    TruncDivInRange(t, x * r.numerator, r.denominator);
    TruncDiv(x * r.numerator, r.denominator)
  }

  /**
    `x / r`: `x * denominator`, then divided by the numerator truncating toward
    zero; the result is a value of the type.
  */
  function Div(t: IntType, x: int, r: Ratio): (y: int)
    requires DivDefined(t, x, r)
    ensures t.Contains(y)
    ensures IsTruncatedQuotient(x * r.denominator, r.numerator, y)
  {
    TruncDivInRange(t, x * r.denominator, r.numerator);
    TruncDiv(x * r.denominator, r.numerator)
  }

  /** `x *= r`: the variable is overwritten with `x * r`. */
  method MulAssign(t: IntType, x: int, r: Ratio) returns (updated: int)
    requires MulDefined(t, x, r)
    ensures updated == Mul(t, x, r)
  {
    updated := TruncDiv(x * r.numerator, r.denominator);
  }

  /** `x /= r`: the variable is overwritten with `x / r`. */
  method DivAssign(t: IntType, x: int, r: Ratio) returns (updated: int)
    requires DivDefined(t, x, r)
    ensures updated == Div(t, x, r)
  {
    updated := TruncDiv(x * r.denominator, r.numerator);
  }
}
