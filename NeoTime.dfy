/**
  The `NeoTime` utility class: moving magnitudes between NeoTime
  (neomilliseconds, a decimal scale in which one neo day is 10^6
  neomilliseconds) and old time (ordinary milliseconds).

  Two operations are kept apart on purpose:
  - scaling multiplies by a fixed ratio (one old millisecond is 5/432
    neomilliseconds); 0 maps to 0, and it is the right tool for spans;
  - conversion is scaling plus the offset between the two epochs, and it is
    the right tool for absolute times.
 */
module NeoTime {
  import opened JavaMath

  /** Old milliseconds between 1970-01-01T00:00:00Z and the neo epoch, 2000-01-01T00:00:00Z. */
  const EPOCH_OFFSET: int := 946_684_800_000

  /** Old milliseconds per 5 neomilliseconds. */
  const OLD_PER_FIVE_NEO: int := 432
  /** Neomilliseconds per 432 old milliseconds. */
  const NEO_PER_432_OLD: int := 5

  /**
    `scaleNeo`: a neo span in old milliseconds, `neoMillis * 432 / 5`. The
    product is overflow-checked; the division truncates toward zero, so the
    magnitude of the result is rounded down and its sign is the input's.
   */
  function ScaleNeo(neoMillis: int): (r: Exact<int>)
    requires IsLong(neoMillis)
    ensures r.Ok? <==> IsLong(neoMillis * 432)
    ensures r.Ok? ==> IsLong(r.value)
    ensures r.Ok? ==> 5 * Abs(r.value) <= 432 * Abs(neoMillis) < 5 * Abs(r.value) + 5
    ensures r.Ok? ==> (neoMillis >= 0 ==> r.value >= 0) && (neoMillis <= 0 ==> r.value <= 0)
  {
    var product :- MultiplyExact(neoMillis, OLD_PER_FIVE_NEO);
    Ok(TruncDiv(product, NEO_PER_432_OLD))
  }

  /**
    `scaleOld`: an old span in neomilliseconds, `oldMillis * 5 / 432`, with
    the same overflow check and truncation toward zero.
   */
  function ScaleOld(oldMillis: int): (r: Exact<int>)
    requires IsLong(oldMillis)
    ensures r.Ok? <==> IsLong(oldMillis * 5)
    ensures r.Ok? ==> IsLong(r.value)
    ensures r.Ok? ==> 432 * Abs(r.value) <= 5 * Abs(oldMillis) < 432 * Abs(r.value) + 432
    ensures r.Ok? ==> (oldMillis >= 0 ==> r.value >= 0) && (oldMillis <= 0 ==> r.value <= 0)
  {
    var product :- MultiplyExact(oldMillis, NEO_PER_432_OLD);
    Ok(TruncDiv(product, OLD_PER_FIVE_NEO))
  }

  /**
    `convertNeo`: an absolute neo time as old milliseconds since 1970, that
    is the scaled value shifted by `EPOCH_OFFSET`. It throws when the scaling
    throws or when the shifted value leaves the `long` range.
   */
  function ConvertNeo(neoMillis: int): (r: Exact<int>)
    requires IsLong(neoMillis)
    ensures r.Ok? <==> ScaleNeo(neoMillis).Ok? && IsLong(ScaleNeo(neoMillis).value + EPOCH_OFFSET)
    ensures r.Ok? ==> ScaleNeo(neoMillis) == Ok(r.value - EPOCH_OFFSET)
  {
    var scaled :- ScaleNeo(neoMillis);
    AddExact(scaled, EPOCH_OFFSET)
  }

  /**
    `convertOld`: an absolute old time as neomilliseconds since the neo
    epoch. The offset is taken off BEFORE scaling; it throws when that
    subtraction or the scaling overflows.
   */
  function ConvertOld(oldMillis: int): (r: Exact<int>)
    requires IsLong(oldMillis)
    ensures r.Ok? <==> IsLong(oldMillis - EPOCH_OFFSET) && IsLong((oldMillis - EPOCH_OFFSET) * 5)
    ensures r.Ok? ==> ScaleOld(oldMillis - EPOCH_OFFSET) == r
  {
    var shifted :- SubtractExact(oldMillis, EPOCH_OFFSET);
    ScaleOld(shifted)
  }

  /** Scaling keeps the origin; conversion moves it by the epoch offset in either direction. */
  lemma ZeroUnderScalingAndConversion()
    ensures ScaleNeo(0) == Ok(0) && ScaleOld(0) == Ok(0)
    ensures ConvertNeo(0) == Ok(EPOCH_OFFSET) && ConvertNeo(0) != ScaleNeo(0)
    ensures ConvertOld(EPOCH_OFFSET) == Ok(0) && ConvertOld(0) != ScaleOld(0)
  {
  }

  /** `scaleNeo` is monotone wherever both values are defined. */
  lemma ScaleNeoMonotone(x: int, y: int)
    requires IsLong(x) && IsLong(y) && x <= y
    requires ScaleNeo(x).Ok? && ScaleNeo(y).Ok?
    ensures ScaleNeo(x).value <= ScaleNeo(y).value
  {
    TruncDivMonotone(x * 432, y * 432, 5);
  }

  /** `scaleOld` is monotone wherever both values are defined. */
  lemma ScaleOldMonotone(x: int, y: int)
    requires IsLong(x) && IsLong(y) && x <= y
    requires ScaleOld(x).Ok? && ScaleOld(y).Ok?
    ensures ScaleOld(x).value <= ScaleOld(y).value
  {
    TruncDivMonotone(x * 5, y * 5, 432);
  }

  /** `scaleNeo` is odd: negating the input negates the result and does not change whether it throws. */
  lemma ScaleNeoOdd(x: int)
    requires IsLong(x) && IsLong(-x)
    ensures ScaleNeo(-x).Ok? == ScaleNeo(x).Ok?
    ensures ScaleNeo(x).Ok? ==> ScaleNeo(-x).value == -ScaleNeo(x).value
  {
    if ScaleNeo(x).Ok? {
      TruncDivNegate(x * 432, 5);
    }
  }

  /** `scaleOld` is odd: negating the input negates the result and does not change whether it throws. */
  lemma ScaleOldOdd(x: int)
    requires IsLong(x) && IsLong(-x)
    ensures ScaleOld(-x).Ok? == ScaleOld(x).Ok?
    ensures ScaleOld(x).Ok? ==> ScaleOld(-x).value == -ScaleOld(x).value
  {
    if ScaleOld(x).Ok? {
      TruncDivNegate(x * 5, 432);
    }
  }

  /**
    Scaling a neo span to old time and back never throws and loses at most
    one neomillisecond, toward zero; it is exact exactly for multiples of 5.
   */
  lemma ScaleNeoRoundTrip(x: int)
    requires IsLong(x) && ScaleNeo(x).Ok?
    ensures ScaleOld(ScaleNeo(x).value).Ok?
    ensures var z := ScaleOld(ScaleNeo(x).value).value;
      Abs(z) <= Abs(x) <= Abs(z) + 1 && (z == x <==> x % 5 == 0)
  {
    if x >= 0 {
      ScaleNeoRoundTripNonNegative(x);
    } else {
      ScaleNeoRoundTripNegative(x);
    }
  }

  lemma ScaleNeoRoundTripNegative(x: int)
    requires x < 0 && IsLong(x) && ScaleNeo(x).Ok?
    ensures ScaleOld(ScaleNeo(x).value).Ok?
    ensures var z := ScaleOld(ScaleNeo(x).value).value;
      Abs(z) <= Abs(x) <= Abs(z) + 1 && (z == x <==> x % 5 == 0)
  {
    ScaleNeoOdd(x);
    ScaleNeoRoundTripNonNegative(-x);
    var y := ScaleNeo(-x).value;
    assert ScaleNeo(x).value == -y;
    ScaleOldOdd(y);
    var w := ScaleOld(y).value;
    assert ScaleOld(-y).value == -w;
    assert w <= -x <= w + 1 && (w == -x <==> (-x) % 5 == 0);
    MultipleOfFiveNegate(x);
  }

  lemma MultipleOfFiveNegate(x: int)
    ensures x % 5 == 0 <==> (-x) % 5 == 0
  {
    var k, m := x / 5, x % 5;
    assert x == 5 * k + m && 0 <= m < 5;
    if m == 0 {
      assert -x == 5 * -k;
    } else {
      assert -x == 5 * (-k - 1) + (5 - m) && 0 < 5 - m < 5;
    }
  }

  lemma ScaleNeoRoundTripNonNegative(x: int)
    requires 0 <= x && IsLong(x * 432)
    ensures ScaleNeo(x).Ok? && ScaleOld(ScaleNeo(x).value).Ok?
    ensures var z := ScaleOld(ScaleNeo(x).value).value;
      z <= x <= z + 1 && (z == x <==> x % 5 == 0)
  {
    var y := ScaleNeo(x).value;
    var r := 432 * x - 5 * y;
    assert 0 <= r < 5;
    var z := ScaleOld(y).value;
    assert 432 * z <= 5 * y < 432 * z + 432;
    if r == 0 {
      FloorDivUnique(5 * y, 432, x);
    } else {
      FloorDivUnique(5 * y, 432, x - 1);
    }
    FiveDividesTimes432(x);
  }

  /**
    Scaling an old span to NeoTime and back never throws and loses less than
    88 old milliseconds, toward zero.
   */
  lemma ScaleOldRoundTrip(y: int)
    requires IsLong(y) && ScaleOld(y).Ok?
    ensures ScaleNeo(ScaleOld(y).value).Ok?
    ensures var w := ScaleNeo(ScaleOld(y).value).value;
      Abs(w) <= Abs(y) <= Abs(w) + 87
  {
  }

  /** Converting an absolute neo time to old time and back cancels the offset: only the scaling loss remains. */
  lemma ConvertNeoRoundTrip(x: int)
    requires IsLong(x) && ConvertNeo(x).Ok?
    ensures ConvertOld(ConvertNeo(x).value) == ScaleOld(ScaleNeo(x).value)
  {
  }

  lemma FiveDividesTimes432(x: int)
    ensures (432 * x) % 5 == 0 <==> x % 5 == 0
  {
    var k, m := x / 5, x % 5;
    assert 432 * x == 5 * (432 * k + 86 * m) + 2 * m;
  }
}
