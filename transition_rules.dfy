/**
 * Daylight-saving transition rules of TimeZoneInfo and their resolution to
 * a concrete date and time in a given year: a fixed-date rule names a day
 * of a month (clamped to the month's length), a floating rule names the
 * first to fourth, or the last, occurrence of a weekday in a month.
 */
module TransitionRules {
  import opened Time
  import opened Calendar

  /** The ordinal weeks a floating rule can name; any week above 4 is read as the last one. */
  datatype WeekOfMonth = FirstWeek | SecondWeek | ThirdWeek | FourthWeek | LastWeek {
    function Value(): int {
      match this
      case FirstWeek => 1
      case SecondWeek => 2
      case ThirdWeek => 3
      case FourthWeek => 4
      case LastWeek => 5
    }
  }

  /**
   * TimeZoneInfo.TransitionTime. `dayOfWeek` counts from 0 (Sunday); `day`
   * is read by fixed-date rules, `week` and `dayOfWeek` by floating ones;
   * only the clock fields of `timeOfDay` are read.
   */
  datatype TransitionTime = TransitionTime(
    timeOfDay: DateTime,
    month: int,
    week: int,
    day: int,
    dayOfWeek: int,
    isFixedDateRule: bool)
  {
    /** The field ranges TransitionTime's factory methods enforce, for the fields resolution reads. */
    predicate Valid() {
      1 <= month <= 12 && 1 <= day <= 31 && 0 <= dayOfWeek <= 6
    }
  }

  /** TimeZoneInfo.AdjustmentRule: a validity window, a daylight delta and the two yearly transitions. */
  datatype AdjustmentRule = AdjustmentRule(
    dateStart: DateTime,
    dateEnd: DateTime,
    daylightDelta: TimeSpan,
    daylightTransitionStart: TransitionTime,
    daylightTransitionEnd: TransitionTime)

  /** System.Globalization.DaylightTime: when daylight time starts and ends in a year, and its delta. */
  datatype DaylightTime = DaylightTime(start: DateTime, end: DateTime, delta: TimeSpan)

  /**
   * TransitionTimeToDateTime: the date and time at which `transition`
   * happens in `year`, built with the clock fields of its time of day.
   */
  function TransitionTimeToDateTime(transition: TransitionTime, year: int): (r: Result<DateTime>)
    ensures !(1 <= year <= 9999) ==> r == Err(ArgumentOutOfRangeException)
    ensures r.Err? ==> r.error == ArgumentOutOfRangeException
  {
    var timeOfDay := transition.timeOfDay;
    if transition.isFixedDateRule then
      if !(1 <= year <= 9999 && 1 <= transition.month <= 12) then Err(ArgumentOutOfRangeException)
      else
        // a day past the end of the month means the last day of the month
        var day := DaysInMonth(year, transition.month);
        NewDateTime(year, transition.month, if day < transition.day then day else transition.day,
          Hour(timeOfDay), Minute(timeOfDay), Second(timeOfDay), Millisecond(timeOfDay))
    else if transition.week <= 4 then
      // the week-th occurrence: walk forward from the first of the month
      match NewDateTime(year, transition.month, 1,
        Hour(timeOfDay), Minute(timeOfDay), Second(timeOfDay), Millisecond(timeOfDay))
      case Err(e) => Err(e)
      case Ok(value) =>
        var dayOfWeek := DayOfWeek(value);
        var delta := transition.dayOfWeek - dayOfWeek;
        var delta := if delta < 0 then delta + 7 else delta;
        var delta := delta + 7 * (transition.week - 1);
        if delta > 0 then AddDays(value, delta) else Ok(value)
    else
      // the last occurrence: walk backward from the last day of the month
      if !(1 <= year <= 9999 && 1 <= transition.month <= 12) then Err(ArgumentOutOfRangeException)
      else
        var daysInMonth := DaysInMonth(year, transition.month);
        match NewDateTime(year, transition.month, daysInMonth,
          Hour(timeOfDay), Minute(timeOfDay), Second(timeOfDay), Millisecond(timeOfDay))
        case Err(e) => Err(e)
        case Ok(value) =>
          var dayOfWeek := DayOfWeek(value);
          var delta := dayOfWeek - transition.dayOfWeek;
          var delta := if delta < 0 then delta + 7 else delta;
          if delta > 0 then AddDays(value, -delta) else Ok(value)
  }

  /** `d` lies on `day` of `month` in `year`, shows the clock time of `timeOfDay` and is of kind Unspecified. */
  predicate IsAt(d: DateTime, year: int, month: Month, day: int, timeOfDay: DateTime)
    requires 1 <= year
  {
    DayOf(d) == DayNumber(year, month, day) && SameClockTime(d, timeOfDay) && d.kind == Unspecified
  }

  /** The day of `month` on which `d` falls, counted from 1. */
  function DayInMonth(d: DateTime, year: int, month: Month): int
    requires 1 <= year
  {
    DayOf(d) - DayNumber(year, month, 1) + 1
  }

  function Min(a: int, b: int): int {
    if a < b then a else b
  }

  /** A fixed-date rule keeps the year and month and takes its day, clamped to the month's last day. */
  lemma FixedDateRuleResolution(transition: TransitionTime, year: int)
    requires transition.Valid() && transition.isFixedDateRule && 1 <= year <= 9999
    ensures var r := TransitionTimeToDateTime(transition, year);
      r.Ok? && IsAt(r.value, year, transition.month, Min(transition.day, DaysInMonth(year, transition.month)), transition.timeOfDay)
  {
    var tod := transition.timeOfDay;
    FieldsAreATimeOfDay(tod);
  }

  /**
   * A floating rule for week 1 to 4 lands on the week-th occurrence of its
   * weekday in the month: a day of the first four weeks (1 to 28), with
   * (day - 1) / 7 == week - 1, on that weekday, at the rule's clock time.
   */
  lemma FloatingRuleResolution(transition: TransitionTime, year: int)
    requires transition.Valid() && !transition.isFixedDateRule && 1 <= transition.week <= 4
    requires 1 <= year <= 9999
    ensures var r := TransitionTimeToDateTime(transition, year);
      && r.Ok?
      && var day := DayInMonth(r.value, year, transition.month);
      && 1 <= day <= 28
      && (day - 1) / 7 == transition.week - 1
      && DayOfWeek(r.value) == transition.dayOfWeek == WeekdayOf(year, transition.month, day)
      && IsAt(r.value, year, transition.month, day, transition.timeOfDay)
  {
    var value := FirstDayOfMonth(transition, year);
    var delta := ForwardSteps(DayOfWeek(value), transition.dayOfWeek, transition.week);
    FloatingRuleSteps(transition, year);
    WalkForward(value, year, transition.month, transition.dayOfWeek, transition.week);
    var r := TransitionTimeToDateTime(transition, year);
    OnDay(r.value, year, transition.month, 1 + delta, transition.timeOfDay);
  }

  /**
   * A floating rule for a week above 4 lands on the last occurrence of its
   * weekday in the month: a day of the month's last seven, on that weekday,
   * at the rule's clock time.
   */
  lemma LastWeekRuleResolution(transition: TransitionTime, year: int)
    requires transition.Valid() && !transition.isFixedDateRule && transition.week > 4
    requires 1 <= year <= 9999
    ensures var r := TransitionTimeToDateTime(transition, year);
      && r.Ok?
      && var day := DayInMonth(r.value, year, transition.month);
      && DaysInMonth(year, transition.month) - 7 < day <= DaysInMonth(year, transition.month)
      && DayOfWeek(r.value) == transition.dayOfWeek == WeekdayOf(year, transition.month, day)
      && IsAt(r.value, year, transition.month, day, transition.timeOfDay)
  {
    var value := LastDayOfMonth(transition, year);
    var delta := BackwardSteps(DayOfWeek(value), transition.dayOfWeek);
    LastWeekRuleSteps(transition, year);
    WalkBackward(value, year, transition.month, transition.dayOfWeek);
    var r := TransitionTimeToDateTime(transition, year);
    OnDay(r.value, year, transition.month, DaysInMonth(year, transition.month) - delta, transition.timeOfDay);
  }

  /** The first day of the transition's month in `year`, at the transition's clock time. */
  function FirstDayOfMonth(transition: TransitionTime, year: int): (value: DateTime)
    requires transition.Valid() && 1 <= year <= 9999
    ensures DayOf(value) == DayNumber(year, transition.month, 1)
    ensures SameClockTime(value, transition.timeOfDay) && value.kind == Unspecified
  {
    var tod := transition.timeOfDay;
    FieldsAreATimeOfDay(tod);
    NewDateTime(year, transition.month, 1, Hour(tod), Minute(tod), Second(tod), Millisecond(tod)).value
  }

  /** The last day of the transition's month in `year`, at the transition's clock time. */
  function LastDayOfMonth(transition: TransitionTime, year: int): (value: DateTime)
    requires transition.Valid() && 1 <= year <= 9999
    ensures DayOf(value) == DayNumber(year, transition.month, DaysInMonth(year, transition.month))
    ensures SameClockTime(value, transition.timeOfDay) && value.kind == Unspecified
  {
    var tod := transition.timeOfDay;
    FieldsAreATimeOfDay(tod);
    NewDateTime(year, transition.month, DaysInMonth(year, transition.month), Hour(tod), Minute(tod), Second(tod), Millisecond(tod)).value
  }

  /** Days forward from weekday `from` to the week-th following weekday `to` (the first one counting from 0 days). */
  function ForwardSteps(from: int, to: int, week: int): int {
    var diff := to - from;
    (if diff < 0 then diff + 7 else diff) + 7 * (week - 1)
  }

  /** Days back from weekday `from` to the nearest weekday `to`, from 0 to 6. */
  function BackwardSteps(from: int, to: int): int {
    var diff := from - to;
    if diff < 0 then diff + 7 else diff
  }

  /** The week-1-to-4 branch of TransitionTimeToDateTime walks ForwardSteps days on from the first of the month. */
  lemma FloatingRuleSteps(transition: TransitionTime, year: int)
    requires transition.Valid() && !transition.isFixedDateRule && 1 <= transition.week <= 4
    requires 1 <= year <= 9999
    ensures var value := FirstDayOfMonth(transition, year);
      var delta := ForwardSteps(DayOfWeek(value), transition.dayOfWeek, transition.week);
      TransitionTimeToDateTime(transition, year) == if delta > 0 then AddDays(value, delta) else Ok(value)
  {
    FieldsAreATimeOfDay(transition.timeOfDay);
  }

  /** The last-week branch of TransitionTimeToDateTime walks back BackwardSteps days from the last day. */
  lemma LastWeekRuleSteps(transition: TransitionTime, year: int)
    requires transition.Valid() && !transition.isFixedDateRule && transition.week > 4
    requires 1 <= year <= 9999
    ensures var value := LastDayOfMonth(transition, year);
      var delta := BackwardSteps(DayOfWeek(value), transition.dayOfWeek);
      TransitionTimeToDateTime(transition, year) == if delta > 0 then AddDays(value, -delta) else Ok(value)
  {
    FieldsAreATimeOfDay(transition.timeOfDay);
  }

  /**
   * Walking ForwardSteps days on from the first of a month stays in the
   * month, keeps the clock time and lands on the target weekday in week
   * `week`.
   */
  lemma WalkForward(value: DateTime, year: int, month: Month, dayOfWeek: int, week: int)
    requires 1 <= year <= 9999 && 0 <= dayOfWeek <= 6 && 1 <= week <= 4
    requires DayOf(value) == DayNumber(year, month, 1)
    ensures var delta := ForwardSteps(DayOfWeek(value), dayOfWeek, week);
      var r := if delta > 0 then AddDays(value, delta) else Ok(value);
      && 0 <= delta <= 27 && delta / 7 == week - 1
      && r.Ok? && DayOf(r.value) == DayNumber(year, month, 1 + delta)
      && SameClockTime(r.value, value) && r.value.kind == value.kind
      && DayOfWeek(r.value) == dayOfWeek
  {
    var delta := ForwardSteps(DayOfWeek(value), dayOfWeek, week);
    ForwardWalk(DayOfWeek(value), dayOfWeek, week - 1);
    if delta > 0 {
      MoveWithinMonth(value, year, month, 1, 1 + delta);
    }
    var r := if delta > 0 then AddDays(value, delta) else Ok(value);
    WeekdayMoves(value, r.value, delta);
  }

  /**
   * Walking BackwardSteps days back from the last day of a month stays in
   * the month's last seven days, keeps the clock time and lands on the
   * target weekday.
   */
  lemma WalkBackward(value: DateTime, year: int, month: Month, dayOfWeek: int)
    requires 1 <= year <= 9999 && 0 <= dayOfWeek <= 6
    requires DayOf(value) == DayNumber(year, month, DaysInMonth(year, month))
    ensures var delta := BackwardSteps(DayOfWeek(value), dayOfWeek);
      var r := if delta > 0 then AddDays(value, -delta) else Ok(value);
      && 0 <= delta <= 6
      && r.Ok? && DayOf(r.value) == DayNumber(year, month, DaysInMonth(year, month) - delta)
      && SameClockTime(r.value, value) && r.value.kind == value.kind
      && DayOfWeek(r.value) == dayOfWeek
  {
    var daysInMonth := DaysInMonth(year, month);
    var delta := BackwardSteps(DayOfWeek(value), dayOfWeek);
    BackwardWalk(DayOfWeek(value), dayOfWeek);
    if delta > 0 {
      MoveWithinMonth(value, year, month, daysInMonth, daysInMonth - delta);
    }
    var r := if delta > 0 then AddDays(value, -delta) else Ok(value);
    WeekdayMoves(value, r.value, -delta);
  }

  /**
   * The forward walk of a week-1-to-4 rule: from weekday `from`, the days to
   * the first `to` plus `weeks` whole weeks, which lands on weekday `to`.
   */
  lemma ForwardWalk(from: int, to: int, weeks: int)
    requires 0 <= from <= 6 && 0 <= to <= 6 && 0 <= weeks <= 3
    ensures var diff := to - from;
      var delta := (if diff < 0 then diff + 7 else diff) + 7 * weeks;
      0 <= delta <= 27 && delta / 7 == weeks && (from + delta) % 7 == to
  {
  }

  /** The backward walk of a last-week rule: at most six days back from weekday `from` to weekday `to`. */
  lemma BackwardWalk(from: int, to: int)
    requires 0 <= from <= 6 && 0 <= to <= 6
    ensures var diff := from - to;
      var delta := if diff < 0 then diff + 7 else diff;
      0 <= delta <= 6 && (from - delta) % 7 == to
  {
  }

  /** Every week number above 4 resolves exactly as WeekOfMonth.Last does. */
  lemma WeeksAboveFourAreLast(transition: TransitionTime, year: int)
    requires transition.week > 4
    ensures TransitionTimeToDateTime(transition, year)
            == TransitionTimeToDateTime(transition.(week := LastWeek.Value()), year)
  {
  }

  /** A DateTime on a given day of a month, with a given clock time and kind Unspecified, is at that day. */
  lemma OnDay(d: DateTime, year: int, month: Month, day: int, timeOfDay: DateTime)
    requires ValidDate(year, month, day)
    requires DayOf(d) == DayNumber(year, month, day) && SameClockTime(d, timeOfDay) && d.kind == Unspecified
    ensures DayInMonth(d, year, month) == day && DayOfWeek(d) == WeekdayOf(year, month, day)
    ensures IsAt(d, year, month, day, timeOfDay)
  {
  }

  /** Two days of a month on the same weekday and in the same seven-day week are the same day. */
  lemma OccurrenceIsUnique(year: int, month: Month, day1: int, day2: int)
    requires ValidDate(year, month, day1) && ValidDate(year, month, day2)
    requires WeekdayOf(year, month, day1) == WeekdayOf(year, month, day2)
    requires (day1 - 1) / 7 == (day2 - 1) / 7
    ensures day1 == day2
  {
    SameWeekIsClose(day1, day2);
    CloseDaysOnSameWeekday(DayNumber(year, month, day1), DayNumber(year, month, day2));
  }

  /** Two days among the last seven of a month on the same weekday are the same day. */
  lemma LastOccurrenceIsUnique(year: int, month: Month, day1: int, day2: int)
    requires ValidDate(year, month, day1) && ValidDate(year, month, day2)
    requires WeekdayOf(year, month, day1) == WeekdayOf(year, month, day2)
    requires day1 > DaysInMonth(year, month) - 7 && day2 > DaysInMonth(year, month) - 7
    ensures day1 == day2
  {
    CloseDaysOnSameWeekday(DayNumber(year, month, day1), DayNumber(year, month, day2));
  }

  lemma SameWeekIsClose(a: int, b: int)
    requires (a - 1) / 7 == (b - 1) / 7
    ensures -7 < a - b < 7
  {
  }

  /** Day numbers less than a week apart on the same weekday are equal. */
  lemma CloseDaysOnSameWeekday(a: int, b: int)
    requires (a + 1) % 7 == (b + 1) % 7 && -7 < a - b < 7
    ensures a == b
  {
  }

  /**
   * Conversely, any day of the month that is the week-th occurrence of the
   * rule's weekday is the day a week-1-to-4 rule resolves to.
   */
  lemma FloatingRuleLandsOn(transition: TransitionTime, year: int, day: int)
    requires transition.Valid() && !transition.isFixedDateRule && 1 <= transition.week <= 4
    requires 1 <= year <= 9999 && ValidDate(year, transition.month, day)
    requires WeekdayOf(year, transition.month, day) == transition.dayOfWeek && (day - 1) / 7 == transition.week - 1
    ensures var r := TransitionTimeToDateTime(transition, year);
      r.Ok? && IsAt(r.value, year, transition.month, day, transition.timeOfDay)
  {
    FloatingRuleResolution(transition, year);
    var r := TransitionTimeToDateTime(transition, year);
    OccurrenceIsUnique(year, transition.month, DayInMonth(r.value, year, transition.month), day);
  }

  /**
   * Conversely, any of the month's last seven days that falls on the
   * rule's weekday is the day a last-week rule resolves to.
   */
  lemma LastWeekRuleLandsOn(transition: TransitionTime, year: int, day: int)
    requires transition.Valid() && !transition.isFixedDateRule && transition.week > 4
    requires 1 <= year <= 9999 && ValidDate(year, transition.month, day)
    requires WeekdayOf(year, transition.month, day) == transition.dayOfWeek
    requires day > DaysInMonth(year, transition.month) - 7
    ensures var r := TransitionTimeToDateTime(transition, year);
      r.Ok? && IsAt(r.value, year, transition.month, day, transition.timeOfDay)
  {
    LastWeekRuleResolution(transition, year);
    var r := TransitionTimeToDateTime(transition, year);
    LastOccurrenceIsUnique(year, transition.month, DayInMonth(r.value, year, transition.month), day);
  }

  /**
   * GetDaylightTime: the start and end transitions of `rule` resolved in
   * `year`, with the rule's daylight delta.
   */
  function GetDaylightTime(rule: AdjustmentRule, year: int): (r: Result<DaylightTime>)
    ensures rule.daylightTransitionStart.Valid() && rule.daylightTransitionEnd.Valid() ==>
      (r.Ok? <==> 1 <= year <= 9999)
    ensures r.Ok? ==> && TransitionTimeToDateTime(rule.daylightTransitionStart, year) == Ok(r.value.start)
                      && TransitionTimeToDateTime(rule.daylightTransitionEnd, year) == Ok(r.value.end)
                      && r.value.delta == rule.daylightDelta
  {
    // both arms compute the same value; the first also brings in the facts
    // that a valid transition resolves in every year from 1 to 9999
    if rule.daylightTransitionStart.Valid() && rule.daylightTransitionEnd.Valid() && 1 <= year <= 9999 then
      ResolvesInRange(rule.daylightTransitionStart, year);
      ResolvesInRange(rule.daylightTransitionEnd, year);
      GetDaylightTimeOf(rule, year)
    else
      GetDaylightTimeOf(rule, year)
  }

  function GetDaylightTimeOf(rule: AdjustmentRule, year: int): Result<DaylightTime> {
    match TransitionTimeToDateTime(rule.daylightTransitionStart, year)
    case Err(e) => Err(e)
    case Ok(startTime) =>
      match TransitionTimeToDateTime(rule.daylightTransitionEnd, year)
      case Err(e) => Err(e)
      case Ok(endTime) => Ok(DaylightTime(startTime, endTime, rule.daylightDelta))
  }

  /** A valid transition resolves without an exception in every year from 1 to 9999. */
  lemma ResolvesInRange(transition: TransitionTime, year: int)
    requires transition.Valid() && 1 <= year <= 9999
    ensures TransitionTimeToDateTime(transition, year).Ok?
  {
    if transition.isFixedDateRule {
      FixedDateRuleResolution(transition, year);
    } else if transition.week > 4 {
      LastWeekRuleResolution(transition, year);
    } else if transition.week >= 1 {
      FloatingRuleResolution(transition, year);
    } else {
      FieldsAreATimeOfDay(transition.timeOfDay);
    }
  }

  /** The clock fields of any DateTime form a valid time of day. */
  lemma FieldsAreATimeOfDay(d: DateTime)
    ensures ValidTimeOfDay(Hour(d), Minute(d), Second(d), Millisecond(d))
  {
  }
}
