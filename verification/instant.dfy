/**
  A wraparound-safe point in time (src/instant.rs).

  An instant is one tick count of its clock's unsigned tick type. Its ordering is
  the half-period rule: `a.cmp(b)` takes the wrapping difference `a - b` and
  compares it with `max_value() / 2`, reversed, so a forward difference in the
  lower half of the counter's range sorts as "later". Checked arithmetic rejects
  durations longer than that half period. Signed tick types are not modelled.
*/
module Instants {
  import opened Options
  import opened Wrapping

  /**
    The two things an instant takes from its clock: the width of `Clock::T` and
    `Clock::SCALING_FACTOR`. The scaling factor's type is a parameter, since this
    code only passes it along.
  */
  datatype Clock<F> = Clock(bits: Bits, scalingFactor: F)

  datatype Instant = Instant(ticks: nat)

  /** The instant's tick count is a value of the clock's tick type. */
  predicate ValidFor<F>(c: Clock<F>, i: Instant) {
    Fits(c.bits, i.ticks)
  }

  /** `duration::Generic`: a tick count paired with the scaling factor it is counted in. */
  datatype Generic<F> = Generic(ticks: nat, scalingFactor: F)

  /** `core::cmp::Ordering`. */
  datatype Ordering = Less | Equal | Greater {
    function Reverse(): (r: Ordering)
      ensures (r == Less) == (this == Greater)
      ensures (r == Greater) == (this == Less)
    {
      match this
      case Less => Greater
      case Equal => Equal
      case Greater => Less
    }
  }

  /** `Ord::cmp` of two unsigned integers: a total order, and `Equal` only on equal values. */
  function CmpNat(x: nat, y: nat): (o: Ordering)
    ensures (o == Less) == (x < y)
    ensures (o == Equal) == (x == y)
    ensures (o == Greater) == (x > y)
  {
    if x < y then Less else if x == y then Equal else Greater
  }

  /** `Instant::new`: the tick value is stored as given. */
  function New<F>(c: Clock<F>, ticks: nat): (i: Instant)
    requires Fits(c.bits, ticks)
    ensures ValidFor(c, i) && i.ticks == ticks
  {
    Instant(ticks)
  }

  /** `PartialEq::eq`: raw tick equality, independent of the ordering. */
  function Eq(a: Instant, b: Instant): (r: bool)
    ensures r <==> a == b
  {
    a.ticks == b.ticks
  }

  /** `Ord::cmp`: the wrapping difference compared with `max_value() / 2`, reversed. */
  function Cmp<F>(c: Clock<F>, a: Instant, b: Instant): (o: Ordering)
    requires ValidFor(c, a) && ValidFor(c, b)
    ensures o == Greater <==> WrappingSub(c.bits, a.ticks, b.ticks) < HalfMax(c.bits)
    ensures o == Equal <==> WrappingSub(c.bits, a.ticks, b.ticks) == HalfMax(c.bits)
    ensures o == Less <==> WrappingSub(c.bits, a.ticks, b.ticks) > HalfMax(c.bits)
  {
    CmpNat(WrappingSub(c.bits, a.ticks, b.ticks), HalfMax(c.bits)).Reverse()
  }

  /** `PartialOrd::partial_cmp`: always defined, and always the total `cmp`. */
  function PartialCmp<F>(c: Clock<F>, a: Instant, b: Instant): (r: Option<Ordering>)
    requires ValidFor(c, a) && ValidFor(c, b)
    ensures r.Some? && r.value == Cmp(c, a, b)
  {
    Some(Cmp(c, a, b))
  }

  /** `a < b`, Rust's default `PartialOrd::lt` over `partial_cmp`. */
  function Lt<F>(c: Clock<F>, a: Instant, b: Instant): (r: bool)
    requires ValidFor(c, a) && ValidFor(c, b)
    ensures r <==> WrappingSub(c.bits, a.ticks, b.ticks) > HalfMax(c.bits)
  {
    PartialCmp(c, a, b) == Some(Less)
  }

  /** `a <= b`, Rust's default `PartialOrd::le`. */
  function Le<F>(c: Clock<F>, a: Instant, b: Instant): (r: bool)
    requires ValidFor(c, a) && ValidFor(c, b)
    ensures r <==> WrappingSub(c.bits, a.ticks, b.ticks) >= HalfMax(c.bits)
  {
    PartialCmp(c, a, b) == Some(Less) || PartialCmp(c, a, b) == Some(Equal)
  }

  /** `a > b`, Rust's default `PartialOrd::gt`. */
  function Gt<F>(c: Clock<F>, a: Instant, b: Instant): (r: bool)
    requires ValidFor(c, a) && ValidFor(c, b)
    ensures r <==> WrappingSub(c.bits, a.ticks, b.ticks) < HalfMax(c.bits)
  {
    PartialCmp(c, a, b) == Some(Greater)
  }

  /** `a >= b`, Rust's default `PartialOrd::ge`. */
  function Ge<F>(c: Clock<F>, a: Instant, b: Instant): (r: bool)
    requires ValidFor(c, a) && ValidFor(c, b)
    ensures r <==> WrappingSub(c.bits, a.ticks, b.ticks) <= HalfMax(c.bits)
  {
    PartialCmp(c, a, b) == Some(Greater) || PartialCmp(c, a, b) == Some(Equal)
  }

  /**
    `checked_duration_since`: the time elapsed from `other` to `i`, present exactly
    when the forward distance is at most the half period.
  */
  function CheckedDurationSince<F>(c: Clock<F>, i: Instant, other: Instant): (r: Option<Generic<F>>)
    requires ValidFor(c, i) && ValidFor(c, other)
    ensures r.Some? <==> WrappingSub(c.bits, i.ticks, other.ticks) <= HalfMax(c.bits)
    ensures r.Some? ==> r.value.scalingFactor == c.scalingFactor
    ensures r.Some? ==> Fits(c.bits, r.value.ticks) && WrappingAdd(c.bits, other.ticks, r.value.ticks) == i.ticks
  {
    if Ge(c, i, other) then
      Some(Generic(WrappingSub(c.bits, i.ticks, other.ticks), c.scalingFactor))
    else
      None
  }

  /**
    `checked_duration_until`: the time from `i` to `other`, present exactly when
    `i <= other`. Since `cmp(i, i)` is `Greater`, the result is never zero ticks,
    and it can be as long as the half period plus two ticks.
  */
  function CheckedDurationUntil<F>(c: Clock<F>, i: Instant, other: Instant): (r: Option<Generic<F>>)
    requires ValidFor(c, i) && ValidFor(c, other)
    ensures r.Some? <==> Cmp(c, i, other) != Greater
    ensures r.Some? <==> WrappingSub(c.bits, i.ticks, other.ticks) >= HalfMax(c.bits)
    ensures r.Some? ==> r.value.scalingFactor == c.scalingFactor
    ensures r.Some? ==> Fits(c.bits, r.value.ticks) && WrappingAdd(c.bits, i.ticks, r.value.ticks) == other.ticks
    ensures r.Some? ==> 1 <= r.value.ticks <= HalfMax(c.bits) + 2
  {
    if Le(c, i, other) then
      Some(Generic(WrappingSub(c.bits, other.ticks, i.ticks), c.scalingFactor))
    else
      None
  }

  /** `duration_since_epoch`: the raw tick count, in the clock's scaling factor. */
  function DurationSinceEpoch<F>(c: Clock<F>, i: Instant): (r: Generic<F>)
    requires ValidFor(c, i)
    ensures r.ticks == i.ticks && r.scalingFactor == c.scalingFactor
  {
    Generic(i.ticks, c.scalingFactor)
  }

  /**
    What `duration.into_ticks(Clock::SCALING_FACTOR)` may return: nothing (the
    conversion failed) or a value of the clock's tick type.
  */
  predicate ConvertsInto<F>(c: Clock<F>, converted: Option<nat>) {
    converted.Some? ==> Fits(c.bits, converted.value)
  }

  /**
    `checked_add`: the duration is first converted into clock ticks by
    `intoTicks` (the duration type's `into_ticks`, which this model takes as a
    parameter); a failed conversion or more than half the period gives `None`,
    otherwise the instant moves forward by the converted ticks, wrapping.
  */
  function CheckedAdd<D, F>(c: Clock<F>, i: Instant, dur: D, intoTicks: (D, F) -> Option<nat>): (r: Option<Instant>)
    requires ValidFor(c, i) && ConvertsInto(c, intoTicks(dur, c.scalingFactor))
    ensures r.Some? <==> (intoTicks(dur, c.scalingFactor).Some? && intoTicks(dur, c.scalingFactor).value <= HalfMax(c.bits))
    ensures r.Some? ==> ValidFor(c, r.value)
    ensures r.Some? ==> WrappingSub(c.bits, r.value.ticks, i.ticks) == intoTicks(dur, c.scalingFactor).value
  {
    match intoTicks(dur, c.scalingFactor)
    case None => None
    case Some(addTicks) =>
      if addTicks <= HalfMax(c.bits) then
        AddThenSub(c.bits, i.ticks, addTicks);
        Some(Instant(WrappingAdd(c.bits, i.ticks, addTicks)))
      else
        None
  }

  /**
    `checked_sub`: as `checked_add`, but the instant moves backward by the
    converted ticks, wrapping.
  */
  function CheckedSub<D, F>(c: Clock<F>, i: Instant, dur: D, intoTicks: (D, F) -> Option<nat>): (r: Option<Instant>)
    requires ValidFor(c, i) && ConvertsInto(c, intoTicks(dur, c.scalingFactor))
    ensures r.Some? <==> (intoTicks(dur, c.scalingFactor).Some? && intoTicks(dur, c.scalingFactor).value <= HalfMax(c.bits))
    ensures r.Some? ==> ValidFor(c, r.value)
    ensures r.Some? ==> WrappingSub(c.bits, i.ticks, r.value.ticks) == intoTicks(dur, c.scalingFactor).value
  {
    match intoTicks(dur, c.scalingFactor)
    case None => None
    case Some(subTicks) =>
      if subTicks <= HalfMax(c.bits) then
        SubThenAdd(c.bits, i.ticks, subTicks);
        Some(Instant(WrappingSub(c.bits, i.ticks, subTicks)))
      else
        None
  }

  /**
    `Instant + Duration`: the checked sum, which must exist (the source panics
    on `None`). The result is never earlier than `i`.
  */
  method Add<D, F>(c: Clock<F>, i: Instant, dur: D, intoTicks: (D, F) -> Option<nat>) returns (r: Instant)
    requires ValidFor(c, i) && ConvertsInto(c, intoTicks(dur, c.scalingFactor))
    requires CheckedAdd(c, i, dur, intoTicks).Some?
    ensures Some(r) == CheckedAdd(c, i, dur, intoTicks)
    ensures ValidFor(c, r) && Ge(c, r, i)
  {
    r := CheckedAdd(c, i, dur, intoTicks).value;
  }

  /**
    `Instant - Duration`: the checked difference, which must exist (the source
    panics on `None`). The result is earlier than `i` unless the duration is zero.
  */
  method Sub<D, F>(c: Clock<F>, i: Instant, dur: D, intoTicks: (D, F) -> Option<nat>) returns (r: Instant)
    requires ValidFor(c, i) && ConvertsInto(c, intoTicks(dur, c.scalingFactor))
    requires CheckedSub(c, i, dur, intoTicks).Some?
    ensures Some(r) == CheckedSub(c, i, dur, intoTicks)
    ensures ValidFor(c, r)
    ensures intoTicks(dur, c.scalingFactor).value > 0 ==> Lt(c, r, i)
    ensures intoTicks(dur, c.scalingFactor).value == 0 ==> r == i && Gt(c, r, i)
  {
    r := CheckedSub(c, i, dur, intoTicks).value;
  }
}
