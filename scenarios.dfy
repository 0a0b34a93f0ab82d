/**
 * Worked instances: a Central European zone around the end of daylight
 * saving time on Sunday 27 October 2024, when the clocks go back from
 * 03:00 to 02:00 and every local time from 02:00 to 03:00 happens twice,
 * first at UTC+2 and then at UTC+1.
 */
module Scenarios {
  import opened Time
  import opened Calendar
  import opened TransitionRules
  import opened Zones
  import opened TieBreak
  import TimeZoneInfoResolver
  import SimpleTimeZoneResolver

  /** Day numbers (days since 1 January of year 1) of the dates used below. */
  const Jan1st2024: int := 738885
  const Oct27th2024: int := 739185
  const Dec31st2024: int := 739250

  lemma DayNumbers()
    ensures DayNumber(2024, 1, 1) == Jan1st2024
    ensures DayNumber(2024, 10, 27) == Oct27th2024
    ensures DayNumber(2024, 12, 31) == Dec31st2024
  {
  }

  /** 27 October 2024 at `hour`:`minute`, of the given kind. */
  function OnOct27th(hour: int, minute: int, kind: DateTimeKind): DateTime
    requires 0 <= hour < 24 && 0 <= minute < 60
  {
    DateTime(Oct27th2024 * TicksPerDay + hour * TicksPerHour + minute * TicksPerMinute, kind)
  }

  /** A transition at `hour` o'clock on the last Sunday of `month`. */
  function LastSundayAt(month: int, hour: int): TransitionTime
    requires 0 <= hour < 24
  {
    TransitionTime(DateTime(hour * TicksPerHour, Unspecified), month, 5, 1, 0, false)
  }

  /** The 2024 rule: daylight time from the last Sunday of March at 02:00 to the last Sunday of October at 03:00. */
  function Rule2024(): AdjustmentRule {
    AdjustmentRule(DateTime(Jan1st2024 * TicksPerDay, Unspecified), DateTime(Dec31st2024 * TicksPerDay, Unspecified),
      TicksPerHour, LastSundayAt(3, 2), LastSundayAt(10, 3))
  }

  /** The first tick of the repeated hour, in local time. */
  const RepeatStart: int := Oct27th2024 * TicksPerDay + 2 * TicksPerHour

  predicate InRepeatedHour(d: DateTime) {
    RepeatStart <= d.ticks < RepeatStart + TicksPerHour
  }

  /** `d` shifted back by `offset`, as a UTC value, when that stays in range. */
  function ShiftedToUtc(d: DateTime, offset: TimeSpan): Result<DateTime> {
    if InTickRange(d.ticks - offset) then Ok(DateTime(d.ticks - offset, Utc)) else Err(ArgumentOutOfRangeException)
  }

  /**
   * The zone as TimeZoneInfo sees it (only late 2024 matters here): local
   * times before the repeated hour are UTC+2, the repeated hour is read as
   * standard time, UTC+1.
   */
  function CentralEurope(): TimeZoneInfo {
    TimeZoneInfo(
      (d: DateTime) => InRepeatedHour(d),
      (d: DateTime) => ShiftedToUtc(d, if d.ticks < RepeatStart then 2 * TicksPerHour else TicksPerHour),
      (d: DateTime) => [TicksPerHour, 2 * TicksPerHour],
      [Rule2024()])
  }

  /** The same zone as SimpleTimeZone sees it: the repeated hour is read as daylight time, UTC+2. */
  function CentralEuropeSimple(): SimpleTimeZone {
    SimpleTimeZone(
      (d: DateTime) => InRepeatedHour(d),
      (d: DateTime) => ShiftedToUtc(d, if d.ticks < RepeatStart + TicksPerHour then 2 * TicksPerHour else TicksPerHour),
      (year: int) => if year == 2024 then HasValue(DaylightTime(DateTime(0, Unspecified), DateTime(0, Unspecified), TicksPerHour))
              else Null)
  }

  /** The rule's transitions fall on 31 March 2024 at 02:00 and 27 October 2024 at 03:00. */
  lemma Transitions2024()
    ensures var r := GetDaylightTime(Rule2024(), 2024);
      && r.Ok?
      && IsAt(r.value.start, 2024, 3, 31, DateTime(2 * TicksPerHour, Unspecified))
      && IsAt(r.value.end, 2024, 10, 27, DateTime(3 * TicksPerHour, Unspecified))
      && r.value.delta == TicksPerHour
  {
    var rule := Rule2024();
    assert DaysInMonth(2024, 3) == 31 && WeekdayOf(2024, 3, 31) == 0;
    LastWeekRuleLandsOn(rule.daylightTransitionStart, 2024, 31);
    assert DaysInMonth(2024, 10) == 31 && WeekdayOf(2024, 10, 27) == 0;
    LastWeekRuleLandsOn(rule.daylightTransitionEnd, 2024, 27);
  }

  /** In 2023 the last Sunday of March is the 26th. */
  lemma LastSundayOfMarch2023()
    ensures var r := TransitionTimeToDateTime(LastSundayAt(3, 2), 2023);
      r.Ok? && IsAt(r.value, 2023, 3, 26, DateTime(2 * TicksPerHour, Unspecified))
  {
    assert DaysInMonth(2023, 3) == 31 && WeekdayOf(2023, 3, 26) == 0;
    LastWeekRuleLandsOn(LastSundayAt(3, 2), 2023, 26);
  }

  /**
   * Re-saving 02:30 local unchanged when it was stored as 00:30 UTC (the
   * daylight reading) keeps 00:30 UTC under every policy, although the
   * naive conversion says 01:30 UTC.
   */
  lemma UnchangedDaylightReadingIsKept(assumption: TimeModificationAssumption)
    ensures var r := TimeZoneInfoResolver.ConvertTimeToMostProbableUtc(
      OnOct27th(2, 30, Unspecified), HasValue(CentralEurope()), OnOct27th(0, 30, Utc), assumption);
      r.Ok? && r.value.ticks == OnOct27th(0, 30, Utc).ticks
  {
    TimeZoneInfoResolver.UnchangedValueIsKept(CentralEurope(), OnOct27th(2, 30, Unspecified), OnOct27th(0, 30, Utc), assumption);
  }

  /**
   * Editing a value stored as 01:00 UTC to 02:30 local: the readings are
   * 00:30 and 01:30 UTC, both half an hour away. ToThePast takes 00:30,
   * ToTheFuture 01:30, and SmallestAdjustment breaks the tie towards the
   * second reading, 01:30. The old value lies between the readings, so
   * SmallToThePast takes 00:30 and SmallToTheFuture 01:30; None has no
   * opinion and falls back to the naive reading, 01:30.
   */
  lemma EditInsideRepeatedHour()
    ensures TimeZoneInfoResolver.ConvertTimeToMostProbableUtc(
      OnOct27th(2, 30, Unspecified), HasValue(CentralEurope()), OnOct27th(1, 0, Utc), ToThePast)
      == Ok(OnOct27th(0, 30, Utc))
    ensures TimeZoneInfoResolver.ConvertTimeToMostProbableUtc(
      OnOct27th(2, 30, Unspecified), HasValue(CentralEurope()), OnOct27th(1, 0, Utc), ToTheFuture)
      == Ok(OnOct27th(1, 30, Utc))
    ensures TimeZoneInfoResolver.ConvertTimeToMostProbableUtc(
      OnOct27th(2, 30, Unspecified), HasValue(CentralEurope()), OnOct27th(1, 0, Utc), SmallestAdjustment)
      == Ok(OnOct27th(1, 30, Utc))
    ensures TimeZoneInfoResolver.ConvertTimeToMostProbableUtc(
      OnOct27th(2, 30, Unspecified), HasValue(CentralEurope()), OnOct27th(1, 0, Utc), SmallToThePast)
      == Ok(OnOct27th(0, 30, Utc))
    ensures TimeZoneInfoResolver.ConvertTimeToMostProbableUtc(
      OnOct27th(2, 30, Unspecified), HasValue(CentralEurope()), OnOct27th(1, 0, Utc), SmallToTheFuture)
      == Ok(OnOct27th(1, 30, Utc))
    ensures TimeZoneInfoResolver.ConvertTimeToMostProbableUtc(
      OnOct27th(2, 30, Unspecified), HasValue(CentralEurope()), OnOct27th(1, 0, Utc), None)
      == Ok(OnOct27th(1, 30, Utc))
  {
    var tz := CentralEurope();
    var local := OnOct27th(2, 30, Unspecified);
    var before := OnOct27th(1, 0, Utc);
    assert ActiveRule(tz, local) == Ok(Rule2024());
    forall assumption: TimeModificationAssumption
      ensures TimeZoneInfoResolver.ConvertTimeToMostProbableUtc(local, HasValue(tz), before, assumption)
        == Ok(ReturnMostLikelyDateTime(OnOct27th(0, 30, Utc), OnOct27th(1, 30, Utc), before, assumption).OrElse(OnOct27th(1, 30, Utc)))
    {
      TimeZoneInfoResolver.HeuristicPath(tz, local, before, assumption);
    }
  }

  /**
   * The SimpleTimeZone flavour reads 02:30 local as 00:30 UTC; an old
   * value of 01:30 UTC is the other reading, so it is kept.
   */
  lemma SimpleZoneKeepsStandardReading(assumption: TimeModificationAssumption)
    ensures SimpleTimeZoneResolver.ToMostProbableUniversalTime(
      HasValue(CentralEuropeSimple()), OnOct27th(2, 30, Unspecified), OnOct27th(1, 30, Utc), assumption)
      == Ok(OnOct27th(1, 30, Utc))
  {
    assert Year(OnOct27th(2, 30, Unspecified)) == 2024;
  }
}
