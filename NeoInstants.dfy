/**
  `NeoInstant`: an immutable point in NeoTime, a pair of a `long` count of
  neoseconds and an `int` adjustment. The constructor is private: instants
  come from `NEOTIME_EPOCH`, which calls it with (0, 0), and from the static
  factories below. `ofSeconds(long)` passes its argument through with a zero
  adjustment; the others split their input with `Math.floorDiv` and
  `Math.floorMod` (never truncation).

  The factories are modelled as the class writes them. Two of them do not
  keep the adjustment a nanosecond count in `[0, 10^9)`: `ofMillis` stores
  the millisecond remainder itself, and the two-argument `ofMillis` adds two
  remainders without carrying. Both are shown by lemmas below, and corrected
  counterparts are given at the end of the module.
 */
module NeoInstants {
  import opened JavaMath

  const MILLIS_PER_SECOND: int := 1000
  const NANOS_PER_MILLI: int := 1_000_000
  const NANOS_PER_SECOND: int := 1_000_000_000

  datatype NeoInstant = NeoInstant(neoSeconds: int, nanoAdjustment: int)
  {
    /** The fields hold a Java `long` and a Java `int`, and every factory leaves the adjustment non-negative. */
    predicate Valid() {
      IsLong(neoSeconds) && IsInt(nanoAdjustment) && 0 <= nanoAdjustment
    }

    /** The instant read as `neoSeconds * 10^9 + nanoAdjustment` nanoseconds. */
    function TotalNanos(): int {
      neoSeconds * NANOS_PER_SECOND + nanoAdjustment
    }

    /** `getSeconds()`. */
    function GetSeconds(): (s: int)
      requires Valid()
      ensures IsLong(s)
    {
      neoSeconds
    }

    /** `getAdjustment()`. */
    function GetAdjustment(): (a: int)
      requires Valid()
      ensures IsInt(a) && 0 <= a
    {
      nanoAdjustment
    }

    /**
      `getMillis()`: `getSeconds() * 1000 + floorDiv(getAdjustment(), 10^6)`,
      both steps overflow-checked. Whenever it succeeds, it is the instant's
      nanosecond value floored to whole milliseconds.
     */
    function GetMillis(): (r: Exact<int>)
      requires Valid()
      ensures r.Ok? <==> IsLong(neoSeconds * 1000) && IsLong(neoSeconds * 1000 + nanoAdjustment / NANOS_PER_MILLI)
      ensures r.Ok? ==> r.value == FloorDiv(TotalNanos(), NANOS_PER_MILLI)
    {
      var whole :- MultiplyExact(GetSeconds(), MILLIS_PER_SECOND);
      var r := AddExact(whole, FloorDiv(GetAdjustment(), NANOS_PER_MILLI));
      FloorDivShift(neoSeconds * 1000, nanoAdjustment, NANOS_PER_MILLI);
      r
    }
  }

  /** `NEOTIME_EPOCH`: the neo epoch itself. */
  const NEOTIME_EPOCH: NeoInstant := NeoInstant(0, 0)

  /** `ofSeconds(long)`: whole neoseconds, never throws. */
  function OfSeconds(neoSeconds: int): (r: NeoInstant)
    requires IsLong(neoSeconds)
    ensures r.Valid() && r.nanoAdjustment < NANOS_PER_SECOND
    ensures r.TotalNanos() == neoSeconds * NANOS_PER_SECOND
  {
    NeoInstant(neoSeconds, 0)
  }

  /**
    `ofSeconds(long, int)`: the adjustment is brought into `[0, 10^9)` by
    `floorMod` and its `floorDiv` carry is added to the seconds with
    `addExact`. The nanosecond value is kept exactly, and the call throws
    exactly when the carried seconds leave the `long` range.
   */
  function OfSecondsAdjusted(neoSeconds: int, nanoAdjustment: int): (r: Exact<NeoInstant>)
    requires IsLong(neoSeconds) && IsInt(nanoAdjustment)
    ensures r.Ok? <==> IsLong(neoSeconds + FloorDiv(nanoAdjustment, NANOS_PER_SECOND))
    ensures r.Ok? ==> r.value.Valid() && r.value.nanoAdjustment < NANOS_PER_SECOND
    ensures r.Ok? ==> r.value.TotalNanos() == neoSeconds * NANOS_PER_SECOND + nanoAdjustment
  {
    var seconds :- AddExact(neoSeconds, FloorDiv(nanoAdjustment, NANOS_PER_SECOND));
    Ok(NeoInstant(seconds, FloorMod(nanoAdjustment, NANOS_PER_SECOND)))
  }

  /**
    `ofMillis(long)`: neoseconds by `floorDiv(ms, 1000)` and, as the adjustment,
    the raw remainder `floorMod(ms, 1000)`, a count of MILLIseconds. It never
    throws, and seconds and adjustment recompose the input as milliseconds.
   */
  function OfMillis(neoMillis: int): (r: NeoInstant)
    requires IsLong(neoMillis)
    ensures r.Valid() && r.nanoAdjustment < MILLIS_PER_SECOND
    ensures r.neoSeconds * MILLIS_PER_SECOND + r.nanoAdjustment == neoMillis
  {
    NeoInstant(FloorDiv(neoMillis, MILLIS_PER_SECOND), FloorMod(neoMillis, MILLIS_PER_SECOND))
  }

  /**
    `ofMillis(long, int)`: the fields of `ofMillis(ms)` and of the normalised
    `ofSeconds(0, n)` added field by field. The seconds are added with a
    `long` `addExact` (which may throw); the adjustments with an `int`
    `addExact`, which cannot throw, and nothing is carried, so the adjustment
    lies in `[0, 1_000_000_998]`.
   */
  function OfMillisAdjusted(neoMillis: int, nanoAdjustment: int): (r: Exact<NeoInstant>)
    requires IsLong(neoMillis) && IsInt(nanoAdjustment)
    ensures r.Ok? <==> IsLong(FloorDiv(neoMillis, MILLIS_PER_SECOND) + FloorDiv(nanoAdjustment, NANOS_PER_SECOND))
    ensures r.Ok? ==> r.value.Valid() && r.value.nanoAdjustment <= 1_000_000_998
    ensures r.Ok? ==> var millis, nanos := OfMillis(neoMillis), OfSecondsAdjusted(0, nanoAdjustment).value;
      r.value.neoSeconds == millis.neoSeconds + nanos.neoSeconds &&
      r.value.nanoAdjustment == millis.nanoAdjustment + nanos.nanoAdjustment
  {
    var seconds :- AddExact(FloorDiv(neoMillis, MILLIS_PER_SECOND), FloorDiv(nanoAdjustment, NANOS_PER_SECOND));
    // the int addExact cannot throw: both remainders are far below Integer.MAX_VALUE / 2
    var adjustment := AddExactInt(FloorMod(nanoAdjustment, NANOS_PER_SECOND), FloorMod(neoMillis, MILLIS_PER_SECOND)).value;
    Ok(NeoInstant(seconds, adjustment))
  }

  /** The epoch is zero seconds and zero adjustment, what every factory gives for zero, and zero milliseconds. */
  lemma EpochIsZero()
    ensures NEOTIME_EPOCH.GetSeconds() == 0 && NEOTIME_EPOCH.GetAdjustment() == 0
    ensures OfSeconds(0) == NEOTIME_EPOCH && OfMillis(0) == NEOTIME_EPOCH
    ensures OfSecondsAdjusted(0, 0) == Ok(NEOTIME_EPOCH) && OfMillisAdjusted(0, 0) == Ok(NEOTIME_EPOCH)
    ensures NEOTIME_EPOCH.GetMillis() == Ok(0)
  {
  }

  /** `ofSeconds(s)` and `ofSeconds(s, 0)` give the same instant. */
  lemma OfSecondsZeroAdjustment(s: int)
    requires IsLong(s)
    ensures OfSecondsAdjusted(s, 0) == Ok(OfSeconds(s))
  {
  }

  /** Normalisation floors: one nanosecond before the epoch is second -1 plus 999,999,999 nanoseconds. */
  lemma OfSecondsFloors()
    ensures OfSecondsAdjusted(0, -1) == Ok(NeoInstant(-1, 999_999_999))
  {
  }

  /** An adjustment already in `[0, 10^9)` is kept as it is, so normalising a normalised instant changes nothing. */
  lemma OfSecondsIdempotent(s: int, n: int)
    requires IsLong(s) && 0 <= n < NANOS_PER_SECOND
    ensures OfSecondsAdjusted(s, n) == Ok(NeoInstant(s, n))
  {
    FloorDivUnique(n, NANOS_PER_SECOND, 0);
  }

  /** Two instants with adjustments in `[0, 10^9)` are equal exactly when they denote the same nanosecond. */
  lemma NormalFormUnique(x: NeoInstant, y: NeoInstant)
    requires x.Valid() && x.nanoAdjustment < NANOS_PER_SECOND
    requires y.Valid() && y.nanoAdjustment < NANOS_PER_SECOND
    ensures x == y <==> x.TotalNanos() == y.TotalNanos()
  {
    if x.TotalNanos() == y.TotalNanos() {
      FloorDivUnique(x.TotalNanos(), NANOS_PER_SECOND, x.neoSeconds);
      FloorDivUnique(y.TotalNanos(), NANOS_PER_SECOND, y.neoSeconds);
    }
  }

  /** `ofMillis(ms, 0)` has the same fields as `ofMillis(ms)`. */
  lemma OfMillisZeroAdjustment(ms: int)
    requires IsLong(ms)
    ensures OfMillisAdjusted(ms, 0) == Ok(OfMillis(ms))
  {
  }

  /**
    `ofMillis(ms).getMillis()` is `ms` rounded down to whole neoseconds: the
    remainder is stored as milliseconds and then divided by 10^6. It throws
    only when that rounded value is below `Long.MIN_VALUE`.
   */
  lemma OfMillisGetMillis(ms: int)
    requires IsLong(ms)
    ensures OfMillis(ms).GetMillis() ==
      if IsLong(FloorDiv(ms, 1000) * 1000) then Ok(ms - FloorMod(ms, 1000)) else ArithmeticException
  {
    var r := OfMillis(ms);
    FloorDivUnique(r.nanoAdjustment, NANOS_PER_MILLI, 0);
  }

  /** Concrete cases of `OfMillisGetMillis`, including the one overflow. */
  lemma OfMillisGetMillisExamples()
    ensures OfMillis(5000).GetMillis() == Ok(5000)
    ensures OfMillis(5500).GetMillis() == Ok(5000)
    ensures OfMillis(LONG_MIN).GetMillis() == ArithmeticException
  {
    OfMillisGetMillis(5000);
    OfMillisGetMillis(5500);
    OfMillisGetMillis(LONG_MIN);
  }

  /** `getMillis()` throws on the largest whole-second instant: the multiplication by 1000 overflows. */
  lemma GetMillisOverflows()
    ensures OfSeconds(LONG_MAX).GetMillis() == ArithmeticException
    ensures OfSeconds(LONG_MAX / 1000).GetMillis() == Ok(LONG_MAX / 1000 * 1000)
  {
  }

  /**
    As written, `ofMillis(ms)` stores the millisecond remainder where a
    nanosecond adjustment belongs: the instant it builds for 5500 ms is
    5 s + 500 ns, not 5.5 s.
   */
  lemma OfMillisStoresMillisRemainder()
    ensures OfMillis(5500) == NeoInstant(5, 500)
    ensures OfMillis(5500).TotalNanos() != 5500 * NANOS_PER_MILLI
  {
  }

  /**
    As written, `ofMillis(ms, n)` does not carry: 999 ms plus 999,999,999 ns
    leaves an adjustment of 1,000,000,998, outside `[0, 10^9)`.
   */
  lemma OfMillisAdjustedDoesNotCarry()
    ensures OfMillisAdjusted(999, 999_999_999) == Ok(NeoInstant(0, 1_000_000_998))
    ensures OfMillisAdjusted(999, 999_999_999).value.nanoAdjustment >= NANOS_PER_SECOND
  {
  }

  /**
    `ofMillis(long)` as evidently intended: the remainder converted to
    nanoseconds, so the instant denotes exactly `ms` milliseconds.
   */
  function OfMillisNanos(neoMillis: int): (r: NeoInstant)
    requires IsLong(neoMillis)
    ensures r.Valid() && r.nanoAdjustment < NANOS_PER_SECOND
    ensures r.TotalNanos() == neoMillis * NANOS_PER_MILLI
  {
    NeoInstant(FloorDiv(neoMillis, MILLIS_PER_SECOND), FloorMod(neoMillis, MILLIS_PER_SECOND) * NANOS_PER_MILLI)
  }

  /** With the corrected factory, `getMillis()` gives back the input whenever it does not overflow. */
  lemma OfMillisNanosGetMillis(ms: int)
    requires IsLong(ms)
    ensures OfMillisNanos(ms).GetMillis() ==
      if IsLong(FloorDiv(ms, 1000) * 1000) then Ok(ms) else ArithmeticException
  {
    FloorDivShift(ms, 0, NANOS_PER_MILLI);
  }

  /**
    `ofMillis(long, int)` as evidently intended: the millisecond remainder in
    nanoseconds plus the adjustment, normalised with its carry folded into
    the seconds, like `ofSeconds(long, int)`.
   */
  function OfMillisAdjustedNanos(neoMillis: int, nanoAdjustment: int): (r: Exact<NeoInstant>)
    requires IsLong(neoMillis) && IsInt(nanoAdjustment)
    ensures r.Ok? <==> IsLong(FloorDiv(neoMillis * NANOS_PER_MILLI + nanoAdjustment, NANOS_PER_SECOND))
    ensures r.Ok? ==> r.value.Valid() && r.value.nanoAdjustment < NANOS_PER_SECOND
    ensures r.Ok? ==> r.value.TotalNanos() == neoMillis * NANOS_PER_MILLI + nanoAdjustment
  {
    var subSecond := FloorMod(neoMillis, MILLIS_PER_SECOND) * NANOS_PER_MILLI + nanoAdjustment;
    FloorDivShift(FloorDiv(neoMillis, MILLIS_PER_SECOND), subSecond, NANOS_PER_SECOND);
    match AddExact(FloorDiv(neoMillis, MILLIS_PER_SECOND), FloorDiv(subSecond, NANOS_PER_SECOND))
    case Ok(seconds) => Ok(NeoInstant(seconds, FloorMod(subSecond, NANOS_PER_SECOND)))
    case ArithmeticException => ArithmeticException
  }

  /** The corrected two-argument factory agrees with the corrected one-argument one at adjustment 0. */
  lemma OfMillisAdjustedNanosZero(ms: int)
    requires IsLong(ms)
    ensures OfMillisAdjustedNanos(ms, 0) == Ok(OfMillisNanos(ms))
  {
    var r := OfMillisAdjustedNanos(ms, 0);
    FloorDivUnique(ms * NANOS_PER_MILLI, NANOS_PER_SECOND, FloorDiv(ms, MILLIS_PER_SECOND));
    NormalFormUnique(r.value, OfMillisNanos(ms));
  }
}
