/**
  The `ChronoUnit` enum: eleven named spans, each with its length in
  neomilliseconds (a power of ten) and its length in old milliseconds
  (conventional calendar-ish lengths). The two columns are stored side by
  side and are NOT related by one ratio; only the day has the same length
  in both scales. `EquivalentOld`/`EquivalentNeo` answer a different
  question, by scaling one column through `NeoTime`.
 */
module ChronoUnits {
  import opened JavaMath
  import NeoTime

  datatype ChronoUnit =
    | Millenium | Century | Decade | Year | Month | Week
    | Day | Hour | Minute | Second | Millisecond
  {
    /** Position in declaration order (Java's `ordinal()`). */
    function Ordinal(): (i: nat)
      ensures i < |Values| && Values[i] == this
    {
      match this
      case Millenium => 0
      case Century => 1
      case Decade => 2
      case Year => 3
      case Month => 4
      case Week => 5
      case Day => 6
      case Hour => 7
      case Minute => 8
      case Second => 9
      case Millisecond => 10
    }

    /** `neoValue()`: the unit's length in neomilliseconds, taken from the table. */
    function NeoValue(): (v: int)
      ensures 0 < v && IsLong(v)
    {
      match this
      case Millenium => 1_000_000_000_000
      case Century => 100_000_000_000
      case Decade => 10_000_000_000
      case Year => 1_000_000_000
      case Month => 100_000_000
      case Week => 10_000_000
      case Day => 1_000_000
      case Hour => 100_000
      case Minute => 10_000
      case Second => 1_000
      case Millisecond => 1
    }

    /** `oldValue()`: the unit's length in old milliseconds, taken from the table. */
    function OldValue(): (v: int)
      ensures 0 < v && IsLong(v)
    {
      match this
      case Millenium => 31_536_000_000_000
      case Century => 3_153_600_000_000
      case Decade => 315_360_000_000
      case Year => 31_536_000_000
      case Month => 2_592_000_000
      case Week => 604_800_000
      case Day => 86_400_000
      case Hour => 3_600_000
      case Minute => 60_000
      case Second => 1_000
      case Millisecond => 1
    }

    /**
      `equivalentOld()`: the unit taken as a neo span, scaled to old
      milliseconds. It never throws.
     */
    function EquivalentOld(): (r: Exact<int>)
      ensures r.Ok? && 5 * r.value <= 432 * NeoValue() < 5 * r.value + 5
    {
      NeoTime.ScaleNeo(NeoValue())
    }

    /**
      `equivalentNeo()`: the unit taken as an old span, scaled to
      neomilliseconds. It never throws.
     */
    function EquivalentNeo(): (r: Exact<int>)
      ensures r.Ok? && 432 * r.value <= 5 * OldValue() < 432 * r.value + 432
    {
      NeoTime.ScaleOld(OldValue())
    }
  }

  /** All units in declaration order (Java's `values()`). */
  const Values: seq<ChronoUnit> :=
    [Millenium, Century, Decade, Year, Month, Week, Day, Hour, Minute, Second, Millisecond]

  /** The millisecond is the common base unit, and the second is 1000 milliseconds in both columns of the table. */
  lemma BaseUnits()
    ensures Millisecond.NeoValue() == Millisecond.OldValue() == 1
    ensures Second.NeoValue() == Second.OldValue() == 1000
  {
  }

  /** Both columns strictly decrease in declaration order. */
  lemma ValuesDecrease(u: ChronoUnit, v: ChronoUnit)
    requires u.Ordinal() < v.Ordinal()
    ensures u.NeoValue() > v.NeoValue()
    ensures u.OldValue() > v.OldValue()
  {
  }

  /**
    The neo column is decimal: from the minute up, each unit is ten times the
    next smaller one, and the second is a thousand milliseconds.
   */
  lemma NeoValuesDecimal(i: nat)
    requires i + 1 < |Values|
    ensures Values[i].NeoValue() == (if Values[i] == Second then 1000 else 10) * Values[i + 1].NeoValue()
  {
  }

  /**
    The old column is calendar-based: a day is 86,400,000 ms; a week, a
    month and a year are 7, 30 and 365 days; decade, century and millennium
    are successive tenfold multiples of the year.
   */
  lemma OldValuesCalendar()
    ensures Day.OldValue() == 24 * Hour.OldValue() == 86_400_000
    ensures Hour.OldValue() == 60 * Minute.OldValue() && Minute.OldValue() == 60 * Second.OldValue()
    ensures Week.OldValue() == 7 * Day.OldValue()
    ensures Month.OldValue() == 30 * Day.OldValue()
    ensures Year.OldValue() == 365 * Day.OldValue()
    ensures Decade.OldValue() == 10 * Year.OldValue()
    ensures Century.OldValue() == 10 * Decade.OldValue()
    ensures Millenium.OldValue() == 10 * Century.OldValue()
  {
  }

  /** One neo day is one old day, in both directions of scaling. */
  lemma DayAnchorsBothScales()
    ensures Day.EquivalentOld() == Ok(Day.OldValue()) && Day.OldValue() == 86_400_000
    ensures Day.EquivalentNeo() == Ok(Day.NeoValue()) && Day.NeoValue() == 1_000_000
  {
  }

  /**
    The day is the only unit whose scaled length matches the other column:
    the table is not one ratio applied to either column.
   */
  lemma OnlyDayIsProportional(u: ChronoUnit)
    ensures u.EquivalentOld() == Ok(u.OldValue()) <==> u == Day
    ensures u.EquivalentNeo() == Ok(u.NeoValue()) <==> u == Day
  {
  }

  /** Two witnesses of the difference: a neo second is 86.4 old seconds, a neo year 1000 old days. */
  lemma EquivalentsDifferFromTable()
    ensures Second.EquivalentOld() == Ok(86_400) && Second.OldValue() == 1_000
    ensures Year.EquivalentOld() == Ok(86_400_000_000) && Year.OldValue() == 31_536_000_000
  {
  }

  /**
    Scaling a unit's neo length to old time and back recovers it up to one
    neomillisecond; only the millisecond itself loses anything.
   */
  lemma UnitScaleRoundTrip(u: ChronoUnit)
    ensures NeoTime.ScaleOld(u.EquivalentOld().value).Ok?
    ensures var back := NeoTime.ScaleOld(u.EquivalentOld().value).value;
      back <= u.NeoValue() <= back + 1 && (back == u.NeoValue() <==> u != Millisecond)
  {
    NeoTime.ScaleNeoRoundTrip(u.NeoValue());
  }
}
