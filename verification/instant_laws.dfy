/**
  Properties of the instant model: the documented examples, what the half-period
  ordering does and does not satisfy, and how the checked operations relate.
*/
module InstantLaws {
  import opened Options
  import opened Wrapping
  import opened Instants

  /** `u32::MAX`. */
  const U32_MAX: nat := 0xFFFF_FFFF

  /** On a 32-bit tick type, `max_value()` is `u32::MAX`. */
  lemma U32Modulus()
    ensures Pow2(32) == U32_MAX + 1
    ensures Max(32) == U32_MAX
  {
    assert Pow2(8) == 0x100;
    assert Pow2(16) == 0x1_0000;
    assert Pow2(24) == 0x100_0000;
  }

  /** The examples documented on `partial_cmp`, for a clock with `u32` ticks. */
  lemma CmpExamplesU32<F>(c: Clock<F>)
    requires c.bits == 32
    ensures Modulus(c.bits) == U32_MAX + 1
    ensures Gt(c, New(c, 5), New(c, 3))
    ensures Eq(New(c, 5), New(c, 5))
    ensures Lt(c, New(c, U32_MAX), New(c, 0))
  {
    U32Modulus();
  }

  /**
    The ordering is not reflexive: an instant compares `Greater` than itself
    although it is equal to itself, so `a <= a` is false.
  */
  lemma CmpSelf<F>(c: Clock<F>, a: Instant)
    requires ValidFor(c, a)
    ensures Eq(a, a) && Cmp(c, a, a) == Greater
    ensures Gt(c, a, a) && Ge(c, a, a) && !Le(c, a, a)
  {
  }

  /** From an instant to itself: zero ticks "since", but nothing "until". */
  lemma DurationToSelf<F>(c: Clock<F>, a: Instant)
    requires ValidFor(c, a)
    ensures CheckedDurationSince(c, a, a) == Some(Generic(0, c.scalingFactor))
    ensures CheckedDurationUntil(c, a, a) == None
  {
  }

  /** The examples documented on `checked_duration_since` and `checked_duration_until`. */
  lemma DurationExamples<F>(c: Clock<F>)
    ensures CheckedDurationSince(c, New(c, 5), New(c, 3)) == Some(Generic(2, c.scalingFactor))
    ensures CheckedDurationSince(c, New(c, 3), New(c, 5)) == None
    ensures CheckedDurationUntil(c, New(c, 5), New(c, 7)) == Some(Generic(2, c.scalingFactor))
    ensures CheckedDurationUntil(c, New(c, 7), New(c, 5)) == None
  {
  }

  /**
    Within the half period the ordering is the intended one: an instant `t` ticks
    after another, with `0 < t < max/2`, is greater, and the other is less.
  */
  lemma CmpWithinHalfPeriod<F>(c: Clock<F>, a: Instant, b: Instant, t: nat)
    requires ValidFor(c, a) && ValidFor(c, b)
    requires 0 < t < HalfMax(c.bits) && a.ticks == WrappingAdd(c.bits, b.ticks, t)
    ensures Cmp(c, a, b) == Greater && Cmp(c, b, a) == Less
  {
    AddThenSub(c.bits, b.ticks, t);
  }

  /** `Greater` one way means `Less` the other way, for two distinct instants. */
  lemma CmpGreaterThenLess<F>(c: Clock<F>, a: Instant, b: Instant)
    requires ValidFor(c, a) && ValidFor(c, b) && a != b
    requires Cmp(c, a, b) == Greater
    ensures Cmp(c, b, a) == Less
  {
  }

  /**
    The converse fails: two instants exactly half the counter's range apart are
    each `Less` than the other, and two instants `max/2` apart compare `Equal`
    one way and `Less` the other.
  */
  lemma CmpNotAntisymmetric<F>(c: Clock<F>, a: Instant, b: Instant)
    requires ValidFor(c, a) && ValidFor(c, b)
    ensures WrappingSub(c.bits, a.ticks, b.ticks) == HalfMax(c.bits) + 1 ==>
      Cmp(c, a, b) == Less && Cmp(c, b, a) == Less
    ensures WrappingSub(c.bits, a.ticks, b.ticks) == HalfMax(c.bits) ==>
      Cmp(c, a, b) == Equal && Cmp(c, b, a) == Less && !Eq(a, b)
  {
  }

  /** The ordering depends only on the wrapping difference: shifting both instants keeps it. */
  lemma CmpShift<F>(c: Clock<F>, a: Instant, b: Instant, k: nat)
    requires ValidFor(c, a) && ValidFor(c, b) && Fits(c.bits, k)
    ensures Cmp(c, Instant(WrappingAdd(c.bits, a.ticks, k)), Instant(WrappingAdd(c.bits, b.ticks, k))) == Cmp(c, a, b)
  {
  }

  /**
    "`a` since `b`" and "`b` until `a`" agree exactly when the wrapping
    difference `a - b` is neither 0 nor `max/2 + 1` nor `max/2 + 2`.
  */
  lemma SinceUntilAgree<F>(c: Clock<F>, a: Instant, b: Instant)
    requires ValidFor(c, a) && ValidFor(c, b)
    ensures CheckedDurationSince(c, a, b) == CheckedDurationUntil(c, b, a) <==>
      var d := WrappingSub(c.bits, a.ticks, b.ticks);
      d != 0 && d != HalfMax(c.bits) + 1 && d != HalfMax(c.bits) + 2
  {
    var d := WrappingSub(c.bits, a.ticks, b.ticks);
    if d == 0 {
      assert a == b;
      DurationToSelf(c, a);
    } else {
      assert WrappingSub(c.bits, b.ticks, a.ticks) + d == Modulus(c.bits);
    }
  }

  /** Concrete pairs on a `u32` clock where "since" and "until" disagree. */
  lemma SinceUntilDisagreeU32<F>(c: Clock<F>)
    requires c.bits == 32
    ensures Modulus(c.bits) == U32_MAX + 1
    ensures CheckedDurationSince(c, New(c, 0x8000_0000), New(c, 0)) == None
    ensures CheckedDurationUntil(c, New(c, 0), New(c, 0x8000_0000)) == Some(Generic(0x8000_0000, c.scalingFactor))
    ensures CheckedDurationSince(c, New(c, 0x8000_0001), New(c, 0)) == None
    ensures CheckedDurationUntil(c, New(c, 0), New(c, 0x8000_0001)) == Some(Generic(0x8000_0001, c.scalingFactor))
  {
    U32Modulus();
  }

  /** Within the half period, the duration since the epoch is the duration since instant 0. */
  lemma EpochIsSinceZero<F>(c: Clock<F>, a: Instant)
    requires ValidFor(c, a) && a.ticks <= HalfMax(c.bits)
    ensures CheckedDurationSince(c, a, New(c, 0)) == Some(DurationSinceEpoch(c, a))
  {
  }

  /** The boundary examples documented on `checked_add`, for a `u32` clock counting milliseconds. */
  lemma CheckedAddBoundaryU32<F>(c: Clock<F>, intoTicks: (nat, F) -> Option<nat>)
    requires c.bits == 32
    requires intoTicks(U32_MAX / 2, c.scalingFactor) == Some(U32_MAX / 2)
    requires intoTicks(U32_MAX / 2 + 1, c.scalingFactor) == Some(U32_MAX / 2 + 1)
    ensures Modulus(c.bits) == U32_MAX + 1
    ensures CheckedAdd<nat, F>(c, New(c, 0), U32_MAX / 2, intoTicks) == Some(New(c, U32_MAX / 2))
    ensures CheckedAdd<nat, F>(c, New(c, 0), U32_MAX / 2 + 1, intoTicks) == None
  {
    U32Modulus();
  }

  /** The boundary examples documented on `checked_sub`, for a `u32` clock counting milliseconds. */
  lemma CheckedSubBoundaryU32<F>(c: Clock<F>, intoTicks: (nat, F) -> Option<nat>)
    requires c.bits == 32
    requires intoTicks(U32_MAX / 2, c.scalingFactor) == Some(U32_MAX / 2)
    requires intoTicks(U32_MAX / 2 + 1, c.scalingFactor) == Some(U32_MAX / 2 + 1)
    ensures Modulus(c.bits) == U32_MAX + 1
    ensures CheckedSub<nat, F>(c, New(c, U32_MAX), U32_MAX / 2, intoTicks) == Some(New(c, U32_MAX - U32_MAX / 2))
    ensures CheckedSub<nat, F>(c, New(c, U32_MAX), U32_MAX / 2 + 1, intoTicks) == None
  {
    U32Modulus();
  }

  /** Subtracting what was just added gives back the original instant. */
  lemma AddSubRoundTrip<D, F>(c: Clock<F>, i: Instant, dur: D, intoTicks: (D, F) -> Option<nat>)
    requires ValidFor(c, i) && ConvertsInto(c, intoTicks(dur, c.scalingFactor))
    requires CheckedAdd(c, i, dur, intoTicks).Some?
    ensures CheckedSub(c, CheckedAdd(c, i, dur, intoTicks).value, dur, intoTicks) == Some(i)
  {
    AddThenSub(c.bits, i.ticks, intoTicks(dur, c.scalingFactor).value);
  }

  /** Adding what was just subtracted gives back the original instant. */
  lemma SubAddRoundTrip<D, F>(c: Clock<F>, i: Instant, dur: D, intoTicks: (D, F) -> Option<nat>)
    requires ValidFor(c, i) && ConvertsInto(c, intoTicks(dur, c.scalingFactor))
    requires CheckedSub(c, i, dur, intoTicks).Some?
    ensures CheckedAdd(c, CheckedSub(c, i, dur, intoTicks).value, dur, intoTicks) == Some(i)
  {
    SubThenAdd(c.bits, i.ticks, intoTicks(dur, c.scalingFactor).value);
  }

  /** After a checked add, the duration since the start is the converted duration. */
  lemma AddThenSince<D, F>(c: Clock<F>, i: Instant, dur: D, intoTicks: (D, F) -> Option<nat>)
    requires ValidFor(c, i) && ConvertsInto(c, intoTicks(dur, c.scalingFactor))
    requires CheckedAdd(c, i, dur, intoTicks).Some?
    ensures CheckedDurationSince(c, CheckedAdd(c, i, dur, intoTicks).value, i)
      == Some(Generic(intoTicks(dur, c.scalingFactor).value, c.scalingFactor))
  {
  }

  /** After a checked sub, the duration since the result is the converted duration. */
  lemma SubThenSince<D, F>(c: Clock<F>, i: Instant, dur: D, intoTicks: (D, F) -> Option<nat>)
    requires ValidFor(c, i) && ConvertsInto(c, intoTicks(dur, c.scalingFactor))
    requires CheckedSub(c, i, dur, intoTicks).Some?
    ensures CheckedDurationSince(c, i, CheckedSub(c, i, dur, intoTicks).value)
      == Some(Generic(intoTicks(dur, c.scalingFactor).value, c.scalingFactor))
  {
  }
}
