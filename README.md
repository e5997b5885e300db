# NeoTime numeric core in Dafny

NeoTime is a Java library for a decimal time scale. In that scale one neo
day is 10^6 neomilliseconds, and one neo day equals one ordinary ("old")
day. This project models the library's arithmetic core and proves its
properties:

- **`NeoTime`** (`NeoTime.dfy`): scaling between neomilliseconds and old
  milliseconds. `scaleNeo` multiplies by 432/5 and `scaleOld` by 5/432.
  Each checks the product for overflow and divides with Java's
  truncating `/`. Conversion (`convertNeo`, `convertOld`) adds or removes
  the offset between the epochs, 946,684,800,000 ms (1970 to 2000). Scaling
  is meant for spans and conversion for absolute times. The lemmas state
  this: scaling fixes 0 and conversion does not, and the offset cancels in
  a conversion round trip.
- **`ChronoUnit`** (`ChronoUnits.dfy`): the table of eleven units. Each unit
  has a neo length and an old length, and the two columns are independent.
  `equivalentOld`/`equivalentNeo` scale one column through `NeoTime`.
- **`NeoInstant`** (`NeoInstants.dfy`): an immutable pair of neoseconds and
  an adjustment. `NEOTIME_EPOCH` is (0, 0) and `ofSeconds(long)` passes its
  argument through; the other factories split their input with
  `floorDiv`/`floorMod`, and `getMillis` is overflow-checked. The model follows the code as
  written, including the two factories whose adjustment is not a
  nanosecond count in `[0, 10^9)` (see Findings).
- **`NeoDate`** (`NeoDates.dfy`): a mutable holder of one `long`. It is a
  class: the constructor and `setTime` write the field, and `clone`
  allocates a new object. `before`, `after`, `equals`, `compareTo` and
  `hashCode` are functions that read the field.

`JavaMath.dfy` holds the Java semantics these classes use:

- the `long` and `int` ranges (`IsLong`, `IsInt`) over Dafny's unbounded
  `int`;
- `Math.addExact`, `Math.subtractExact` and `Math.multiplyExact`, which
  return `Exact<T>`, where `ArithmeticException` stands for the thrown
  exception;
- `Math.floorDiv` and `Math.floorMod` with a positive divisor;
- Java's truncating `/` (`TruncDiv`).

Where a source comment and the code disagree, the model follows the code.
The comment on `oldValue()` gives `DAY.oldValue() == 86400`, but the
table entry is 86,400,000.

## Model

| member | source | states |
|---|---|---|
| `JavaMath.AddExact` | src/main/java/space/arim/time/NeoTime.java:88 | `Math.addExact(long, long)`: throws exactly when the sum leaves the `long` range, and otherwise returns the sum |
| `JavaMath.AddExactInt` | src/main/java/space/arim/time/NeoInstant.java:39 | `Math.addExact(int, int)`: throws exactly when the sum leaves the `int` range, and otherwise returns the sum |
| `JavaMath.SubtractExact` | src/main/java/space/arim/time/NeoTime.java:104 | `Math.subtractExact(long, long)`: throws exactly when the difference leaves the `long` range, and otherwise returns it |
| `JavaMath.MultiplyExact` | src/main/java/space/arim/time/NeoTime.java:122 | `Math.multiplyExact(long, long)`: throws exactly when the product leaves the `long` range, and otherwise returns it |
| `JavaMath.TruncDiv` | src/main/java/space/arim/time/NeoTime.java:122 | Java `/`: the quotient's magnitude is the floor of the magnitudes' quotient, and its sign is the product of the signs (rounds toward zero) |
| `JavaMath.FloorDiv` | src/main/java/space/arim/time/NeoInstant.java:31 | `Math.floorDiv` with a positive divisor: the largest `q` with `q*b <= a` |
| `JavaMath.FloorMod` | src/main/java/space/arim/time/NeoInstant.java:31 | `Math.floorMod` with a positive divisor: lies in `[0, b)` and recomposes `a` with `FloorDiv` |
| `NeoTime.ScaleNeo` | src/main/java/space/arim/time/NeoTime.java:121-123 | throws exactly when `x*432` leaves the `long` range; otherwise returns a `long` whose magnitude times 5 brackets `432*abs(x)` within 5, with the sign of `x` (`x*432/5` truncated toward zero) |
| `NeoTime.ScaleOld` | src/main/java/space/arim/time/NeoTime.java:139-141 | throws exactly when `x*5` leaves the `long` range; otherwise returns `x*5/432` truncated toward zero, with the sign of `x` |
| `NeoTime.ConvertNeo` | src/main/java/space/arim/time/NeoTime.java:87-89 | succeeds exactly when scaling succeeds and the scaled value plus the epoch offset is a `long`; the result minus the offset is `scaleNeo(x)` |
| `NeoTime.ConvertOld` | src/main/java/space/arim/time/NeoTime.java:103-105 | succeeds exactly when `x - offset` and `(x - offset)*5` are `long`s; the result is `scaleOld(x - offset)` (offset removed before scaling) |
| `NeoTime.ZeroUnderScalingAndConversion` | src/main/java/space/arim/time/NeoTime.java:55-79 | scaling maps 0 to 0 in both directions; `convertNeo(0)` is the offset, not `scaleNeo(0)`; `convertOld(offset) == 0` |
| `NeoTime.ScaleNeoMonotone` | src/main/java/space/arim/time/NeoTime.java:122 | `x <= y` implies `scaleNeo(x) <= scaleNeo(y)` wherever both are defined |
| `NeoTime.ScaleOldMonotone` | src/main/java/space/arim/time/NeoTime.java:140 | `x <= y` implies `scaleOld(x) <= scaleOld(y)` wherever both are defined |
| `NeoTime.ScaleNeoOdd` | src/main/java/space/arim/time/NeoTime.java:122 | `scaleNeo(-x)` throws iff `scaleNeo(x)` does, and otherwise equals `-scaleNeo(x)` |
| `NeoTime.ScaleOldOdd` | src/main/java/space/arim/time/NeoTime.java:140 | `scaleOld(-x)` throws iff `scaleOld(x)` does, and otherwise equals `-scaleOld(x)` |
| `NeoTime.ScaleNeoRoundTrip` | src/main/java/space/arim/time/NeoTime.java:121-141 | if `scaleNeo(x)` succeeds then `scaleOld(scaleNeo(x))` succeeds, is at most 1 closer to zero than `x`, and equals `x` iff `x` is a multiple of 5 |
| `NeoTime.ScaleOldRoundTrip` | src/main/java/space/arim/time/NeoTime.java:121-141 | if `scaleOld(y)` succeeds then `scaleNeo(scaleOld(y))` succeeds and is at most 87 closer to zero than `y` |
| `NeoTime.ConvertNeoRoundTrip` | src/main/java/space/arim/time/NeoTime.java:87-105 | when `convertNeo(x)` succeeds, `convertOld(convertNeo(x)) == scaleOld(scaleNeo(x))`: the offset cancels |
| `ChronoUnits.ChronoUnit.NeoValue` | src/main/java/space/arim/time/ChronoUnit.java:59-61 | the unit's neo column of the table, a positive `long` |
| `ChronoUnits.ChronoUnit.OldValue` | src/main/java/space/arim/time/ChronoUnit.java:76-78 | the unit's old column of the table, a positive `long` |
| `ChronoUnits.ChronoUnit.EquivalentOld` | src/main/java/space/arim/time/ChronoUnit.java:90-92 | `scaleNeo(neoValue())` never throws, and times 5 it brackets `432*neoValue()` within 5 |
| `ChronoUnits.ChronoUnit.EquivalentNeo` | src/main/java/space/arim/time/ChronoUnit.java:104-106 | `scaleOld(oldValue())` never throws, and times 432 it brackets `5*oldValue()` within 432 |
| `ChronoUnits.BaseUnits` | src/main/java/space/arim/time/ChronoUnit.java:31-32 | MILLISECOND is 1 in both columns; SECOND is 1000 in both |
| `ChronoUnits.ValuesDecrease` | src/main/java/space/arim/time/ChronoUnit.java:22-32 | both columns strictly decrease in declaration order |
| `ChronoUnits.NeoValuesDecimal` | src/main/java/space/arim/time/ChronoUnit.java:22-32 | in the neo column every unit from MINUTE up is ten times the next smaller unit; SECOND is 1000 MILLISECONDs |
| `ChronoUnits.OldValuesCalendar` | src/main/java/space/arim/time/ChronoUnit.java:22-31 | DAY is 86,400,000 ms = 24 hours of 60 minutes of 60 seconds; WEEK, MONTH and YEAR are 7, 30 and 365 days; DECADE, CENTURY and MILLENIUM are successive tenfold multiples of YEAR |
| `ChronoUnits.DayAnchorsBothScales` | src/main/java/space/arim/time/ChronoUnit.java:82-106 | one neo day is one old day: `DAY.equivalentOld() == DAY.oldValue() == 86_400_000` and `DAY.equivalentNeo() == DAY.neoValue() == 1_000_000` |
| `ChronoUnits.OnlyDayIsProportional` | src/main/java/space/arim/time/ChronoUnit.java:22-32 | `u.equivalentOld() == u.oldValue()` iff `u` is DAY, and likewise `u.equivalentNeo() == u.neoValue()` iff `u` is DAY |
| `ChronoUnits.EquivalentsDifferFromTable` | src/main/java/space/arim/time/ChronoUnit.java:90-92 | `SECOND.equivalentOld() == 86_400` while `SECOND.oldValue() == 1000`; `YEAR.equivalentOld() == 86_400_000_000` while `YEAR.oldValue() == 31_536_000_000` |
| `ChronoUnits.UnitScaleRoundTrip` | src/main/java/space/arim/time/ChronoUnit.java:90-92 | `scaleOld(u.equivalentOld())` succeeds and is within 1 below `u.neoValue()`; it is exact for every unit except MILLISECOND |
| `NeoInstants.NeoInstant.GetSeconds` | src/main/java/space/arim/time/NeoInstant.java:42-44 | returns a `long` |
| `NeoInstants.NeoInstant.GetAdjustment` | src/main/java/space/arim/time/NeoInstant.java:46-48 | returns a non-negative `int` |
| `NeoInstants.NeoInstant.GetMillis` | src/main/java/space/arim/time/NeoInstant.java:50-52 | throws exactly when `seconds*1000` or `seconds*1000 + floorDiv(adjustment, 10^6)` leaves the `long` range; otherwise it equals `floorDiv(seconds*10^9 + adjustment, 10^6)`, the instant's value in whole milliseconds rounded down |
| `NeoInstants.OfSeconds` | src/main/java/space/arim/time/NeoInstant.java:26-28 | never throws; adjustment in `[0, 10^9)` and value exactly `s` seconds |
| `NeoInstants.OfSecondsAdjusted` | src/main/java/space/arim/time/NeoInstant.java:30-32 | throws exactly when `s + floorDiv(n, 10^9)` leaves the `long` range; otherwise adjustment in `[0, 10^9)` and `seconds*10^9 + adjustment == s*10^9 + n` |
| `NeoInstants.OfMillis` | src/main/java/space/arim/time/NeoInstant.java:34-36 | never throws; adjustment in `[0, 1000)` and `seconds*1000 + adjustment == ms`: the adjustment is the millisecond remainder |
| `NeoInstants.OfMillisAdjusted` | src/main/java/space/arim/time/NeoInstant.java:38-40 | throws exactly when `floorDiv(ms, 1000) + floorDiv(n, 10^9)` leaves the `long` range; otherwise adds the fields of `ofMillis(ms)` and `ofSeconds(0, n)` with no carry, so the adjustment lies in `[0, 1_000_000_998]` and the `int` addition never throws |
| `NeoInstants.EpochIsZero` | src/main/java/space/arim/time/NeoInstant.java:17 | `NEOTIME_EPOCH` has seconds 0 and adjustment 0; it is what every factory builds from zero, and its `getMillis()` is 0 |
| `NeoInstants.OfSecondsZeroAdjustment` | src/main/java/space/arim/time/NeoInstant.java:26-32 | `ofSeconds(s, 0)` equals `ofSeconds(s)` |
| `NeoInstants.OfSecondsFloors` | src/main/java/space/arim/time/NeoInstant.java:31 | `ofSeconds(0, -1)` is seconds -1, adjustment 999,999,999 |
| `NeoInstants.OfSecondsIdempotent` | src/main/java/space/arim/time/NeoInstant.java:31 | for `0 <= n < 10^9`, `ofSeconds(s, n)` keeps `(s, n)` unchanged |
| `NeoInstants.NormalFormUnique` | src/main/java/space/arim/time/NeoInstant.java:30-32 | two instants with adjustment in `[0, 10^9)` are equal iff they denote the same nanosecond |
| `NeoInstants.OfMillisZeroAdjustment` | src/main/java/space/arim/time/NeoInstant.java:34-40 | `ofMillis(ms, 0)` has the same fields as `ofMillis(ms)` |
| `NeoInstants.OfMillisGetMillis` | src/main/java/space/arim/time/NeoInstant.java:34-52 | `ofMillis(ms).getMillis()` is `ms` rounded down to a multiple of 1000; it throws iff `floorDiv(ms, 1000)*1000` is below `Long.MIN_VALUE` |
| `NeoInstants.OfMillisGetMillisExamples` | src/main/java/space/arim/time/NeoInstant.java:34-52 | `ofMillis(5000)` and `ofMillis(5500)` both give 5000; `ofMillis(Long.MIN_VALUE).getMillis()` throws |
| `NeoInstants.GetMillisOverflows` | src/main/java/space/arim/time/NeoInstant.java:50-52 | `ofSeconds(Long.MAX_VALUE).getMillis()` throws; `ofSeconds(Long.MAX_VALUE / 1000).getMillis()` does not |
| `NeoInstants.OfMillisStoresMillisRemainder` | src/main/java/space/arim/time/NeoInstant.java:34-36 | `ofMillis(5500)` is (5 s, 500), which read as nanoseconds is not 5500 ms |
| `NeoInstants.OfMillisAdjustedDoesNotCarry` | src/main/java/space/arim/time/NeoInstant.java:38-40 | `ofMillis(999, 999_999_999)` is (0 s, 1,000,000,998): the adjustment reaches 10^9 |
| `NeoInstants.OfMillisNanos` | src/main/java/space/arim/time/NeoInstant.java:34-36 | corrected `ofMillis(ms)`: adjustment in `[0, 10^9)` and value exactly `ms * 10^6` nanoseconds |
| `NeoInstants.OfMillisNanosGetMillis` | src/main/java/space/arim/time/NeoInstant.java:34-52 | with the corrected factory, `getMillis()` returns `ms` unless `floorDiv(ms, 1000)*1000` overflows |
| `NeoInstants.OfMillisAdjustedNanos` | src/main/java/space/arim/time/NeoInstant.java:38-40 | corrected `ofMillis(ms, n)`: throws iff the floored seconds leave the `long` range; otherwise adjustment in `[0, 10^9)` and value exactly `ms*10^6 + n` nanoseconds |
| `NeoInstants.OfMillisAdjustedNanosZero` | src/main/java/space/arim/time/NeoInstant.java:34-40 | the corrected `ofMillis(ms, 0)` equals the corrected `ofMillis(ms)` |
| `NeoDates.LongHash` | src/main/java/space/arim/time/NeoDate.java:98-101 | `(int) ht ^ (int) (ht >> 32)` is an `int`; its value is pinned down by the `LongHashOf…` lemmas |
| `NeoDates.LongHashOfSmallNonNegative` | src/main/java/space/arim/time/NeoDate.java:98-101 | a time in `[0, Integer.MAX_VALUE]` is its own hash |
| `NeoDates.LongHashOfSmallNegative` | src/main/java/space/arim/time/NeoDate.java:98-101 | a time in `[Integer.MIN_VALUE, 0)` hashes to `-x - 1`, since the high half is all ones |
| `NeoDates.LongHashOfHalves` | src/main/java/space/arim/time/NeoDate.java:98-101 | for `x == hi * 2^32 + lo`, the hash is `lo` XOR the unsigned bits of `hi`, read as an `int` |
| `NeoDates.LongHashOfHighHalf` | src/main/java/space/arim/time/NeoDate.java:98-101 | a `long` whose low half is zero and whose high half `k` is positive hashes to `k` |
| `NeoDates.LongHashOfExtremes` | src/main/java/space/arim/time/NeoDate.java:98-101 | `Long.MIN_VALUE` and `Long.MAX_VALUE` both hash to `Integer.MIN_VALUE` |
| `NeoDates.NeoDate.constructor` | src/main/java/space/arim/time/NeoDate.java:30-32 | `new NeoDate(ms).getTime() == ms` |
| `NeoDates.NeoDate.Clone` | src/main/java/space/arim/time/NeoDate.java:33-35 | returns a freshly allocated date with the same time |
| `NeoDates.NeoDate.GetTime` | src/main/java/space/arim/time/NeoDate.java:43-45 | returns the stored `long` |
| `NeoDates.NeoDate.SetTime` | src/main/java/space/arim/time/NeoDate.java:46-48 | afterwards `getTime() == t`; only this object is modified |
| `NeoDates.NeoDate.Before` | src/main/java/space/arim/time/NeoDate.java:55-57 | `before` is irreflexive: a date is never before itself |
| `NeoDates.NeoDate.After` | src/main/java/space/arim/time/NeoDate.java:64-66 | `after` is irreflexive: a date is never after itself |
| `NeoDates.NeoDate.Equals` | src/main/java/space/arim/time/NeoDate.java:73-78 | true only for a `NeoDate` argument, and equal dates have equal `hashCode()` |
| `NeoDates.NeoDate.CompareTo` | src/main/java/space/arim/time/NeoDate.java:88-93 | returns -1, 0 or 1; -1 exactly when `before`, 1 exactly when `after` |
| `NeoDates.NeoDate.HashCode` | src/main/java/space/arim/time/NeoDate.java:98-101 | an `int` determined by the time alone |
| `NeoDates.BeforeAfterMirror` | src/main/java/space/arim/time/NeoDate.java:55-66 | `a.before(b)` iff `b.after(a)`; `before` and `after` never both hold; otherwise the dates are `equals` |
| `NeoDates.CompareToAntisymmetric` | src/main/java/space/arim/time/NeoDate.java:73-93 | `a.compareTo(b) == -b.compareTo(a)`, and `compareTo` is 0 exactly when `equals` holds |
| `NeoDates.CloneIsIndependent` | src/main/java/space/arim/time/NeoDate.java:33-48 | after cloning, `setTime` on the clone and on the original leaves each with its own time |

## Left out

- The clock readers `NeoTime.nanoTime`, `currentTimeMillis` and `getCurrentTime`, and the no-argument `NeoDate()`, all read the system clock. `currentTimeMillis` also uses unchecked arithmetic and subtracts the offset after scaling, so it is not the same as `convertOld`.
- `NeoDate.from` and `NeoDate.toInstant` call `NeoInstant.value()` and a one-argument `NeoInstant` constructor. Neither exists in `NeoInstant`, so there is nothing to model.
- `NeoDate.toString` only formats a `long` as decimal text.
- `TemporalAccessor` is an interface with no implementation here. Its default methods refer to `NeoDate.EPOCH` and `NeoInstant.EPOCH`, which are not defined. `TemporalAccessor` is not part of this model.
- `NeoInstant` defines no comparison, equality, hashing, micro- or nanosecond derivations, or re-normalisation in `ofMillis`. The model adds none of these.
- `NeoDates.NeoDate.Equals` takes `object?`. Any non-`NeoDate` argument, `null` included, gives false, as Java's `instanceof` test does. Java's dynamic dispatch of `equals` to subclasses is not modelled.

## Findings

| source | as written | input that shows it | evidently intended | confidence | as-written member | corrected member |
|---|---|---|---|---|---|---|
| src/main/java/space/arim/time/NeoInstant.java:35 | `ofMillis(ms)` stores `floorMod(ms, 1000)`, a millisecond count, in the nanosecond adjustment; `getMillis()` then divides it by 10^6 and drops it | `ofMillis(5500)` is (5, 500) and `getMillis()` gives 5000 | adjustment `floorMod(ms, 1000) * 10^6`, so that `ofMillis(ms).getMillis() == ms` | high; not executed | `NeoInstants.OfMillisStoresMillisRemainder` | `NeoInstants.OfMillisNanosGetMillis` |
| src/main/java/space/arim/time/NeoInstant.java:39 | `ofMillis(ms, n)` adds `floorMod(n, 10^9)` and the millisecond remainder without carrying into the seconds | `ofMillis(999, 999_999_999)` gives adjustment 1,000,000,998, outside `[0, 10^9)` | the remainder in nanoseconds plus `n`, normalised with floor division and the carry added to the seconds | high; not executed | `NeoInstants.OfMillisAdjustedDoesNotCarry` | `NeoInstants.OfMillisAdjustedNanos` |
