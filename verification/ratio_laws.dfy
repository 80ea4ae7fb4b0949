/**
  Properties of the ratio model: the expectations of the `mul`, `mul_assign`,
  `div` and `div_assign` tests for every integer type, equality without
  reduction, truncation toward zero, the order of the operations, and the
  round trip through `*` and `/` when no truncation happens.
*/
module RatioLaws {
  import opened Integers
  import opened Ratios

  /** The ratio 1/2 that the tests use. */
  function Half(t: IntType): (r: Ratio)
    ensures ValidFor(t, r) && r.numerator == 1 && r.denominator == 2
  {
    New(t, 1, 2)
  }

  /** The `mul` test: `MAX * Ratio::new(1, 2) == MAX / 2`, for every type. */
  lemma MulTest(t: IntType)
    ensures MulDefined(t, t.Max(), Half(t))
    ensures Mul(t, t.Max(), Half(t)) == t.Max() / 2
  {
    var y := Mul(t, t.Max(), Half(t));
    TruncDivNonNegative(t.Max(), 2);
    TruncatedQuotientUnique(t.Max(), 2, y, TruncDiv(t.Max(), 2));
  }

  /** The `div` test: `((MAX - MAX % 2) / 2) / Ratio::new(1, 2) == MAX - MAX % 2`, for every type. */
  lemma DivTest(t: IntType)
    ensures DivDefined(t, (t.Max() - t.Max() % 2) / 2, Half(t))
    ensures Div(t, (t.Max() - t.Max() % 2) / 2, Half(t)) == t.Max() - t.Max() % 2
  {
    var x := (t.Max() - t.Max() % 2) / 2;
    var y := Div(t, x, Half(t));
    assert x * 2 == t.Max() - t.Max() % 2;
    assert IsTruncatedQuotient(x * 2, 1, x * 2);
    TruncatedQuotientUnique(x * 2, 1, y, x * 2);
  }

  /** The `mul_assign` test: `input *= Ratio::new(1, 2)` turns `MAX` into `MAX / 2`. */
  method MulAssignTest(t: IntType) returns (input: int)
    ensures input == t.Max() / 2
  {
    MulTest(t);
    input := t.Max();
    input := MulAssign(t, input, Half(t));
  }

  /** The `div_assign` test: `input /= Ratio::new(1, 2)` turns `(MAX - MAX % 2) / 2` into `MAX - MAX % 2`. */
  method DivAssignTest(t: IntType) returns (input: int)
    ensures input == t.Max() - t.Max() % 2
  {
    DivTest(t);
    input := (t.Max() - t.Max() % 2) / 2;
    input := DivAssign(t, input, Half(t));
  }

  /** Equality does not reduce: 1/2 and 2/4 are different ratios. */
  lemma EqDoesNotReduce(t: IntType)
    ensures !Eq(New(t, 1, 2), New(t, 2, 4))
  {
  }

  /** Division truncates toward zero: `-7 * Ratio::new(1, 2)` is -3 in `i8`, not -4. */
  lemma MulTruncatesTowardZero()
    ensures MulDefined(I8, -7, New(I8, 1, 2))
    ensures Mul(I8, -7, New(I8, 1, 2)) == -3
  {
    var y := Mul(I8, -7, New(I8, 1, 2));
    assert IsTruncatedQuotient(-7, 2, -3);
    TruncatedQuotientUnique(-7, 2, y, -3);
  }

  /**
    The multiplication comes first: `3 * Ratio::new(2, 3)` is 2, whereas
    dividing the ratio first would give `3 * (2 / 3) == 0`.
  */
  lemma MultiplyBeforeDivide()
    ensures MulDefined(U32, 3, New(U32, 2, 3))
    ensures Mul(U32, 3, New(U32, 2, 3)) == 2
    ensures 3 * TruncDiv(2, 3) == 0
  {
    var y := Mul(U32, 3, New(U32, 2, 3));
    assert IsTruncatedQuotient(6, 3, 2);
    TruncatedQuotientUnique(6, 3, y, 2);
    TruncDivNonNegative(2, 3);
  }

  /**
    `(x * r) / r == x` when `x * numerator` is an exact multiple of the
    denominator, the numerator is not zero, and `x * r` is defined.
  */
  lemma MulDivRoundTrip(t: IntType, x: int, r: Ratio)
    requires MulDefined(t, x, r) && r.numerator != 0
    requires (x * r.numerator) % r.denominator == 0
    ensures DivDefined(t, Mul(t, x, r), r)
    ensures Div(t, Mul(t, x, r), r) == x
  {
    var n, d := r.numerator, r.denominator;
    var k := (x * n) / d;
    assert x * n == k * d;
    DivExact(k, d);
    var y := Mul(t, x, r);
    TruncatedQuotientUnique(x * n, d, y, k);
    assert y * d == x * n;
    assert !(y * d == t.Min() && n == -1);
    DivExact(x, n);
    TruncatedQuotientUnique(y * d, n, Div(t, y, r), x);
  }

  /**
    `(x / r) * r == x` when `x * denominator` is an exact multiple of the
    numerator, the denominator is not zero, and `x / r` is defined.
  */
  lemma DivMulRoundTrip(t: IntType, x: int, r: Ratio)
    requires DivDefined(t, x, r) && r.denominator != 0
    requires (x * r.denominator) % r.numerator == 0
    ensures MulDefined(t, Div(t, x, r), r)
    ensures Mul(t, Div(t, x, r), r) == x
  {
    var n, d := r.numerator, r.denominator;
    var k := (x * d) / n;
    assert x * d == k * n;
    DivExact(k, n);
    var y := Div(t, x, r);
    TruncatedQuotientUnique(x * d, n, y, k);
    assert y * n == x * d;
    assert !(y * n == t.Min() && d == -1);
    DivExact(x, d);
    TruncatedQuotientUnique(y * n, d, Mul(t, y, r), x);
  }
}
