# Fixed-point time arithmetic: wraparound-safe instants and ratios

This project models two pieces of the `embedded-time` crate's fixed-point time
arithmetic in Dafny and proves properties of them.

- **`Instant`** (`src/instant.rs`) is one tick count of a clock's unsigned tick
  type. Its ordering is the half-period rule. `a.cmp(b)` takes the wrapping
  difference `a - b`, compares it with `max_value() / 2`, and reverses the
  result. `checked_duration_since` and `checked_duration_until` use that ordering.
  `checked_add` and `checked_sub` turn a duration into clock ticks. They reject a
  failed conversion and anything above `max_value() / 2`. Otherwise they move the
  instant with wrapping arithmetic. `+` and `-` unwrap those results.
- **`Ratio<T>`** (`src/ratio.rs`) is a numerator and a denominator of one integer
  type. `x * r` is `x * numerator / denominator` and `x / r` is
  `x * denominator / numerator`. Both multiply first and divide with Rust's
  truncating `/`. `*=` and `/=` overwrite the variable.

Modules:

- `Wrapping` (wrapping.dfy): an N-bit unsigned value is a `nat` below `2^N`
  (N ≥ 8; `u8` is Rust's narrowest unsigned type). It also defines
  `max_value()`, `max_value() / 2`, `wrapping_add` and `wrapping_sub`.
- `Instants` (instant.dfy): the instant operations. A `Clock<F>` carries the
  tick width and `SCALING_FACTOR`. The factor's type `F` stays opaque. The
  duration's `into_ticks(SCALING_FACTOR)` is a parameter `intoTicks` that
  returns `None` on failure.
- `InstantLaws` (instant_laws.dfy): the documented examples, the ordering's
  properties and its quirks, and the relations between the checked operations.
- `Integers` (integers.dfy): the types `i8`…`u64` and Rust's `/`, which truncates
  toward zero. The model specifies `/` by its remainder and proves that this
  specification has only one solution.
- `Ratios` (ratio.dfy) and `RatioLaws` (ratio_laws.dfy): the ratio
  operations, the crate's test expectations for every width, and the round trips.
- `Options` (options.dfy): Rust's `Option`.

Quirks of the half-period ordering, modelled as written and proved:

- `cmp(a, a)` is `Greater`, because `0 < max/2`. So `a <= a` is false,
  `checked_duration_until(a, a)` is `None` and `checked_duration_since(a, a)` is
  `Some(0)`.
- A difference of exactly `max/2` compares `Equal`, but the two instants are not
  `==`.
- Two instants `max/2 + 1` apart are each `Less` than the other.

The doc comments describe `checked_duration_since` as the time elapsed from
another instant to this one (src/instant.rs:56-57) and `checked_duration_until`
as the time from this instant to another (src/instant.rs:91-92). Read that way,
"`a` since `b`" and "`b` until `a`" are the same quantity. The code keeps that
promise except when the wrapping difference `a - b` is 0, `max/2 + 1` or
`max/2 + 2`. The model follows the code. `InstantLaws.SinceUntilAgree` states the
exact condition, and `InstantLaws.SinceUntilDisagreeU32` gives concrete `u32`
counterexamples.

## Model

| member | source | states |
|---|---|---|
| `Wrapping.WrappingAdd` | src/instant.rs:170 | the sum lies in the type and is `x + y`, or `x + y - 2^N` if it wrapped |
| `Wrapping.WrappingSub` | src/instant.rs:259-260 | the difference lies in the type and adding `y` back gives `x`, with or without one wrap |
| `Wrapping.Max` | src/instant.rs:261 | `max_value()` is a value of the type and the largest one: its successor does not fit |
| `Wrapping.HalfMax` | src/instant.rs:261 | `max_value() / 2` is `2^(N-1) - 1`, so it is at least 1 |
| `Instants.New` | src/instant.rs:52-54 | the instant holds exactly the given tick value |
| `Instants.Eq` | src/instant.rs:225-229 | two instants are equal exactly when their raw ticks are equal, whatever `cmp` says |
| `Instants.Ordering.Reverse` | src/instant.rs:262 | `.reverse()` swaps `Less` and `Greater` and keeps `Equal` |
| `Instants.CmpNat` | src/instant.rs:261 | `Ord::cmp` on tick values: `Less`, `Equal` or `Greater` exactly when the first is smaller, equal or larger |
| `Instants.Cmp` | src/instant.rs:257-263 | with `d = (a - b) mod 2^N`: `Greater` iff `d < max/2`, `Equal` iff `d == max/2`, `Less` iff `d > max/2` |
| `Instants.PartialCmp` | src/instant.rs:252-254 | `partial_cmp` is always `Some(cmp)` |
| `Instants.Lt` | src/instant.rs:248-250 | Rust's default `<`: holds exactly when `(a - b) mod 2^N > max/2` |
| `Instants.Le` | src/instant.rs:116 | Rust's default `<=`: holds exactly when `(a - b) mod 2^N >= max/2` |
| `Instants.Gt` | src/instant.rs:248-250 | Rust's default `>`: holds exactly when `(a - b) mod 2^N < max/2` |
| `Instants.Ge` | src/instant.rs:81 | Rust's default `>=`: holds exactly when `(a - b) mod 2^N <= max/2` |
| `Instants.CheckedDurationSince` | src/instant.rs:80-89 | `Some` exactly when `(self - other) mod 2^N <= max/2`; the duration then carries the clock's factor and brings `other` forward to `self` |
| `Instants.CheckedDurationUntil` | src/instant.rs:115-124 | `Some` exactly when `cmp(self, other) != Greater`, i.e. `(self - other) mod 2^N >= max/2`; the duration then brings `self` forward to `other`, and is between 1 and `max/2 + 2` ticks |
| `Instants.DurationSinceEpoch` | src/instant.rs:130-132 | the raw ticks, paired with the clock's scaling factor unchanged |
| `Instants.CheckedAdd` | src/instant.rs:162-175 | `None` when the conversion fails or gives more than `max/2` ticks; otherwise an instant exactly the converted ticks after `self`, modulo 2^N |
| `Instants.CheckedSub` | src/instant.rs:201-214 | `None` when the conversion fails or gives more than `max/2` ticks; otherwise an instant exactly the converted ticks before `self`, modulo 2^N |
| `Instants.Add` | src/instant.rs:321-323 | callable only when `checked_add` is `Some` (the source panics otherwise); returns that instant, which is `>=` the start |
| `Instants.Sub` | src/instant.rs:381-383 | callable only when `checked_sub` is `Some` (the source panics otherwise); returns that instant, which is `<` the start for a non-zero duration and the start itself for zero |
| `InstantLaws.CmpExamplesU32` | src/instant.rs:248-250 | on a `u32` clock: `new(5) > new(3)`, `new(5) == new(5)`, `new(u32::MAX) < new(u32::MIN)` |
| `InstantLaws.U32Modulus` | src/instant.rs:248-250 | on a 32-bit tick type `max_value()` is `u32::MAX` and there are `u32::MAX + 1` values |
| `InstantLaws.CmpSelf` | src/instant.rs:258-263 | an instant equals itself but compares `Greater` with itself, so `a > a` and `!(a <= a)` |
| `InstantLaws.DurationToSelf` | src/instant.rs:80-124 | `checked_duration_since(a, a)` is zero ticks, `checked_duration_until(a, a)` is `None` |
| `InstantLaws.DurationExamples` | src/instant.rs:75-113 | 5 since 3 is 2 ticks, 3 since 5 is `None`, 5 until 7 is 2 ticks, 7 until 5 is `None`, in the clock's factor |
| `InstantLaws.CmpWithinHalfPeriod` | src/instant.rs:258-263 | an instant `t` ticks after another, `0 < t < max/2`, is `Greater` and the other is `Less` |
| `InstantLaws.CmpGreaterThenLess` | src/instant.rs:258-263 | for distinct instants, `cmp(a, b) == Greater` implies `cmp(b, a) == Less` |
| `InstantLaws.CmpNotAntisymmetric` | src/instant.rs:258-263 | at distance `max/2 + 1` both directions are `Less`; at distance `max/2` one way is `Equal`, the other `Less`, and the instants are not equal |
| `InstantLaws.CmpShift` | src/instant.rs:258-263 | shifting both instants by the same number of ticks (wrapping) does not change `cmp` |
| `InstantLaws.SinceUntilAgree` | src/instant.rs:80-124 | `a` since `b` equals `b` until `a` exactly when `(a - b) mod 2^N` is not 0, `max/2 + 1` or `max/2 + 2` |
| `InstantLaws.SinceUntilDisagreeU32` | src/instant.rs:80-124 | on `u32`, `2^31` since 0 and `2^31 + 1` since 0 are `None`, while 0 until them are `Some` |
| `InstantLaws.EpochIsSinceZero` | src/instant.rs:80-132 | within the half period, the duration since the epoch is the duration since `new(0)` |
| `InstantLaws.CheckedAddBoundaryU32` | src/instant.rs:152-160 | on a `u32` clock with same-unit durations, `new(0) + MAX/2` is `new(MAX/2)` and `new(0) + (MAX/2 + 1)` is `None` |
| `InstantLaws.CheckedSubBoundaryU32` | src/instant.rs:195-199 | on a `u32` clock with same-unit durations, `new(MAX) - MAX/2` is `new(MAX - MAX/2)` and `new(MAX) - (MAX/2 + 1)` is `None` |
| `InstantLaws.AddSubRoundTrip` | src/instant.rs:162-214 | when `checked_add(i, d)` succeeds, `checked_sub` of its result by `d` is `Some(i)` |
| `InstantLaws.SubAddRoundTrip` | src/instant.rs:162-214 | when `checked_sub(i, d)` succeeds, `checked_add` of its result by `d` is `Some(i)` |
| `InstantLaws.AddThenSince` | src/instant.rs:80-175 | after `j = checked_add(i, d)`, `j` since `i` is exactly the converted ticks of `d` |
| `InstantLaws.SubThenSince` | src/instant.rs:80-214 | after `j = checked_sub(i, d)`, `i` since `j` is exactly the converted ticks of `d` |
| `Integers.IntType.Max` | src/ratio.rs:91 | `<T>::MAX` is at least `i8::MAX`, and a signed type's `MIN` is `-MAX - 1` |
| `Integers.IntType.Min` | src/ratio.rs:41 | `<T>::MIN`, the dividend of the overflowing `MIN / -1`, is never positive |
| `Integers.TruncDiv` | src/ratio.rs:41 | Rust's `/`: the remainder is smaller than the divisor in magnitude and is zero or has the dividend's sign |
| `Integers.TruncatedQuotientUnique` | src/ratio.rs:41 | that remainder condition determines the quotient uniquely |
| `Integers.TruncDivInRange` | src/ratio.rs:41 | the quotient of two values of a type is in the type exactly unless it is `MIN / -1` |
| `Ratios.New` | src/ratio.rs:19-24 | numerator and denominator are stored as given, a zero denominator included |
| `Ratios.Eq` | src/ratio.rs:27-31 | ratios are equal exactly when numerators and denominators are pairwise equal |
| `Ratios.Mul` | src/ratio.rs:40-42 | `x * r` is the truncated quotient of `x * numerator` by the denominator and is in the type; requires a non-zero denominator and no overflow |
| `Ratios.Div` | src/ratio.rs:57-59 | `x / r` is the truncated quotient of `x * denominator` by the numerator and is in the type; requires a non-zero numerator and no overflow |
| `Ratios.MulAssign` | src/ratio.rs:45-49 | after `x *= r` the variable holds `x * r` |
| `Ratios.DivAssign` | src/ratio.rs:62-66 | after `x /= r` the variable holds `x / r` |
| `RatioLaws.MulTest` | src/ratio.rs:80-92 | for every type, `MAX * Ratio::new(1, 2) == MAX / 2` |
| `RatioLaws.MulAssignTest` | src/ratio.rs:96-110 | for every type, `input *= Ratio::new(1, 2)` turns `MAX` into `MAX / 2` |
| `RatioLaws.DivTest` | src/ratio.rs:113-126 | for every type, `((MAX - MAX % 2) / 2) / Ratio::new(1, 2) == MAX - MAX % 2` |
| `RatioLaws.DivAssignTest` | src/ratio.rs:129-142 | for every type, `/=` by `Ratio::new(1, 2)` gives the same result as the `div` test |
| `RatioLaws.EqDoesNotReduce` | src/ratio.rs:27-31 | `Ratio::new(1, 2) != Ratio::new(2, 4)` |
| `RatioLaws.MulTruncatesTowardZero` | src/ratio.rs:40-42 | in `i8`, `-7 * Ratio::new(1, 2)` is -3, not the -4 that floor division would give |
| `RatioLaws.MultiplyBeforeDivide` | src/ratio.rs:40-42 | `3 * Ratio::new(2, 3)` is 2, while dividing the ratio first would give 0 |
| `RatioLaws.MulDivRoundTrip` | src/ratio.rs:40-59 | when `x * numerator` is a multiple of the denominator, `x * r` is defined and the numerator is not zero, `(x * r) / r` is defined and equals `x` |
| `RatioLaws.DivMulRoundTrip` | src/ratio.rs:40-59 | when `x * denominator` is a multiple of the numerator, `x / r` is defined and the denominator is not zero, `(x / r) * r` is defined and equals `x` |

## Left out

- `FixedPoint::into_ticks` and the `duration` module are not part of this model. The conversion is a parameter `intoTicks: (D, F) -> Option<nat>` whose result must fit the clock's tick type. `duration::Generic` is a pair of ticks and a scaling factor.
- The `Fraction` type of `Clock::SCALING_FACTOR` is not part of this model. The instant code only passes it along, so it is a type parameter.
- The `Clock` trait and `try_now`: these read hardware, so they are not modelled. An instant is built with `Instants.New`.
- The `Debug`, `Copy` and `Clone` implementations (src/instant.rs:217-223): they carry no arithmetic.
- Signed tick types for `Instant`: only unsigned widths are modelled.
- Ratios.Mul, Ratios.Div: these do not model what happens when `x * numerator` (or `x * denominator`) overflows. That is a debug-mode panic or a release-mode wrap, depending on the compiler setting, so the model requires that the product fits. It also requires a non-zero divisor (the denominator for `*`, the numerator for `/`) and a quotient other than `MIN / -1`. Rust panics on both, in every build mode.
- Instants.Add, Instants.Sub: these require the checked result to be `Some` and do not model the panic itself.
