/**
 * The proleptic Gregorian calendar of .NET's DateTime: leap years, month
 * lengths, the day number of a date (days since 1 January 0001), the
 * DateTime constructor from calendar fields, and the fields read back
 * from a DateTime (Year, DayOfWeek, Hour, Minute, Second, Millisecond).
 */
module Calendar {
  import opened Time

  // A common year has 365 days; a 4-year cycle 1461, a 100-year cycle
  // 36524 and a 400-year cycle 146097. The numbers are written out in the
  // formulas below, where they multiply unknowns.

  /** Day number of 31 December 9999, the last day a DateTime can hold. */
  const LastDayNumber: int := 3652058

  type Month = m: int | 1 <= m <= 12 witness 1

  predicate IsLeapYear(year: int) {
    year % 4 == 0 && (year % 100 != 0 || year % 400 == 0)
  }

  /** Days of `year` before the first day of `month`; month 13 gives the length of the year. */
  function DaysToMonth(year: int, month: int): int
    requires 1 <= month <= 13
  {
    var days := [0, 31, 59, 90, 120, 151, 181, 212, 243, 273, 304, 334, 365][month - 1];
    if IsLeapYear(year) && month > 2 then days + 1 else days
  }

  /** DateTime.DaysInMonth. */
  function DaysInMonth(year: int, month: Month): (n: int)
    ensures 28 <= n <= 31
    ensures month == 2 ==> n == (if IsLeapYear(year) then 29 else 28)
    ensures month != 2 ==> n >= 30
  {
    DaysToMonth(year, month + 1) - DaysToMonth(year, month)
  }

  /** April, June, September and November have 30 days, the other months but February 31. */
  lemma MonthLengths(year: int, month: Month)
    requires month != 2
    ensures DaysInMonth(year, month) == if month in {4, 6, 9, 11} then 30 else 31
  {
  }

  /** Days from 1 January 0001 to 1 January of `year`. */
  function DaysBeforeYear(year: int): int
    requires year >= 1
  {
    var y := year - 1;
    y * 365 + y / 4 - y / 100 + y / 400
  }

  predicate ValidDate(year: int, month: int, day: int) {
    1 <= year <= 9999 && 1 <= month <= 12 && 1 <= day <= DaysInMonth(year, month)
  }

  /** Days from 1 January 0001 to the given date. */
  function DayNumber(year: int, month: Month, day: int): int
    requires 1 <= year
  {
    DaysBeforeYear(year) + DaysToMonth(year, month) + day - 1
  }

  lemma DaysBeforeYearBound(year: int)
    requires 1 <= year <= 9998
    ensures 0 <= DaysBeforeYear(year) <= DaysBeforeYear(9998)
  {
    var y := year - 1;
    assert y / 4 - y / 100 == 24 * (y / 100) + (y % 100) / 4;
  }

  /** Every date of the DateTime range has a day number in [0, LastDayNumber]. */
  lemma DayNumberInRange(year: int, month: Month, day: int)
    requires ValidDate(year, month, day)
    ensures 0 <= DayNumber(year, month, day) <= LastDayNumber
  {
    if year < 9999 {
      DaysBeforeYearBound(year);
    }
  }

  predicate ValidTimeOfDay(hour: int, minute: int, second: int, millisecond: int) {
    0 <= hour < 24 && 0 <= minute < 60 && 0 <= second < 60 && 0 <= millisecond < 1000
  }

  function TimeToTicks(hour: int, minute: int, second: int, millisecond: int): int {
    hour * TicksPerHour + minute * TicksPerMinute + second * TicksPerSecond + millisecond * TicksPerMillisecond
  }

  /** DateTime.Hour. */
  function Hour(d: DateTime): (h: int)
    ensures 0 <= h < 24
  {
    (d.ticks / TicksPerHour) % 24
  }

  /** DateTime.Minute. */
  function Minute(d: DateTime): (m: int)
    ensures 0 <= m < 60
  {
    (d.ticks / TicksPerMinute) % 60
  }

  /** DateTime.Second. */
  function Second(d: DateTime): (s: int)
    ensures 0 <= s < 60
  {
    (d.ticks / TicksPerSecond) % 60
  }

  /** DateTime.Millisecond. */
  function Millisecond(d: DateTime): (ms: int)
    ensures 0 <= ms < 1000
  {
    (d.ticks / TicksPerMillisecond) % 1000
  }

  /** DateTime.DayOfWeek: 0 is Sunday; 1 January 0001 was a Monday. */
  function DayOfWeek(d: DateTime): (w: int)
    ensures 0 <= w <= 6
  {
    (d.ticks / TicksPerDay + 1) % 7
  }

  /** A DateTime `days` days after another is `days` weekdays later. */
  lemma WeekdayMoves(d: DateTime, e: DateTime, days: int)
    requires DayOf(e) == DayOf(d) + days
    ensures DayOfWeek(e) == (DayOfWeek(d) + days) % 7
  {
    WeekdayAfterDays(DayOf(d), days);
  }

  /** Moving `days` days from day number `n` moves the weekday by `days`. */
  lemma WeekdayAfterDays(n: int, days: int)
    ensures (n + days + 1) % 7 == ((n + 1) % 7 + days) % 7
  {
  }

  /** The day number of a DateTime (the whole days in its ticks). */
  function DayOf(d: DateTime): int {
    d.ticks / TicksPerDay
  }

  /** The fields of a tick count built from a day number and a time of day read back as they were. */
  lemma FieldsOfTicks(n: int, hour: int, minute: int, second: int, millisecond: int)
    requires ValidTimeOfDay(hour, minute, second, millisecond)
    requires 0 <= n <= LastDayNumber
    ensures var d := DateTime(n * TicksPerDay + TimeToTicks(hour, minute, second, millisecond), Unspecified);
      && DayOf(d) == n && Hour(d) == hour && Minute(d) == minute
      && Second(d) == second && Millisecond(d) == millisecond
  {
    var t := n * TicksPerDay + TimeToTicks(hour, minute, second, millisecond);
    var h := n * 24 + hour;
    var mi := h * 60 + minute;
    var s := mi * 60 + second;
    assert t == n * 864000000000 + hour * 36000000000 + minute * 600000000 + second * 10000000 + millisecond * 10000;
    DivOfComposed(n, 864000000000, hour * 36000000000 + minute * 600000000 + second * 10000000 + millisecond * 10000);
    DivOfComposed(h, 36000000000, minute * 600000000 + second * 10000000 + millisecond * 10000);
    DivOfComposed(mi, 600000000, second * 10000000 + millisecond * 10000);
    DivOfComposed(s, 10000000, millisecond * 10000);
    DivOfComposed(s * 1000 + millisecond, 10000, 0);
    DivOfComposed(n, 24, hour);
    DivOfComposed(h, 60, minute);
    DivOfComposed(mi, 60, second);
    DivOfComposed(s, 1000, millisecond);
  }

  /** Dividing `q * k + r` by `k` gives back `q` and `r` when `0 <= r < k`. */
  lemma DivOfComposed(q: int, k: int, r: int)
    requires 0 <= r < k
    ensures (q * k + r) / k == q && (q * k + r) % k == r
  {
    var a, b := (q * k + r) / k, (q * k + r) % k;
    assert (a - q) * k == r - b;
    if a > q {
      MulAtLeast(a - q, k);
    } else if a < q {
      MulAtLeast(q - a, k);
    }
  }

  /** A positive multiple of `k` is at least `k`. */
  lemma MulAtLeast(x: int, k: int)
    requires x >= 1 && k >= 0
    ensures x * k >= k
  {
    assert x * k - k == (x - 1) * k;
  }

  /**
   * `new DateTime(year, month, day, hour, minute, second, millisecond)`:
   * throws ArgumentOutOfRangeException unless the fields form a date of
   * years 1 to 9999 and a time of day; the result is of kind Unspecified
   * and its fields read back as given.
   */
  function NewDateTime(year: int, month: int, day: int, hour: int, minute: int, second: int, millisecond: int): (r: Result<DateTime>)
    ensures r.Ok? <==> ValidDate(year, month, day) && ValidTimeOfDay(hour, minute, second, millisecond)
    ensures r.Err? ==> r.error == ArgumentOutOfRangeException
    ensures r.Ok? ==> && r.value.kind == Unspecified
                      && DayOf(r.value) == DayNumber(year, month, day)
                      && Hour(r.value) == hour && Minute(r.value) == minute
                      && Second(r.value) == second && Millisecond(r.value) == millisecond
  {
    if !ValidDate(year, month, day) || !ValidTimeOfDay(hour, minute, second, millisecond) then
      Err(ArgumentOutOfRangeException)
    else
      var n := DayNumber(year, month, day);
      DayNumberInRange(year, month, day);
      FieldsOfTicks(n, hour, minute, second, millisecond);
      Ok(DateTime(n * TicksPerDay + TimeToTicks(hour, minute, second, millisecond), Unspecified))
  }

  /** A year adds 366 days when it is a leap year and 365 otherwise. */
  lemma DaysBeforeNextYear(year: int)
    requires year >= 1
    ensures DaysBeforeYear(year + 1) == DaysBeforeYear(year) + (if IsLeapYear(year) then 366 else 365)
  {
    NextQuotients(year);
  }

  /** How the leap-day counts change from one year to the next. */
  lemma NextQuotients(year: int)
    ensures year / 4 == (year - 1) / 4 + (if year % 4 == 0 then 1 else 0)
    ensures year / 100 == (year - 1) / 100 + (if year % 100 == 0 then 1 else 0)
    ensures year / 400 == (year - 1) / 400 + (if year % 400 == 0 then 1 else 0)
  {
    NextQuotient4(year);
    NextQuotient100(year);
    NextQuotient400(year);
  }

  lemma NextQuotient4(year: int)
    ensures year / 4 == (year - 1) / 4 + (if year % 4 == 0 then 1 else 0)
  {
  }

  lemma NextQuotient100(year: int)
    ensures year / 100 == (year - 1) / 100 + (if year % 100 == 0 then 1 else 0)
  {
  }

  lemma NextQuotient400(year: int)
    ensures year / 400 == (year - 1) / 400 + (if year % 400 == 0 then 1 else 0)
  {
  }

  /** The day count of whole 400-, 100-, 4- and 1-year cycles. */
  lemma DaysBeforeYearByCycles(a: int, b: int, c: int, e: int)
    requires a >= 0 && 0 <= b <= 3 && 0 <= c <= 24 && 0 <= e <= 3
    ensures DaysBeforeYear(400 * a + 100 * b + 4 * c + e + 1)
         == a * 146097 + b * 36524 + c * 1461 + e * 365
  {
    var y := 400 * a + 100 * b + 4 * c + e;
    assert y / 4 == 100 * a + 25 * b + c;
    assert y / 100 == 4 * a + b;
    assert y / 400 == a;
  }

  /**
   * DateTime.Year, computed as .NET does: whole 400-, 100-, 4- and 1-year
   * cycles of the day number, the last two clamped to 3 on the final day of
   * a cycle. The result is the year whose days contain the DateTime.
   */
  function Year(d: DateTime): (year: int)
    ensures 1 <= year <= 9999
    ensures DaysBeforeYear(year) <= DayOf(d) < DaysBeforeYear(year + 1)
  {
    var n := d.ticks / TicksPerDay;
    var y400 := n / 146097;
    var n1 := n - y400 * 146097;
    var y100 := if n1 / 36524 == 4 then 3 else n1 / 36524;
    var n2 := n1 - y100 * 36524;
    var y4 := n2 / 1461;
    var n3 := n2 - y4 * 1461;
    var y1 := if n3 / 365 == 4 then 3 else n3 / 365;
    YearFromCycles(n, y400, y100, y4, y1);
    y400 * 400 + y100 * 100 + y4 * 4 + y1 + 1
  }

  /** The cycle counts stay within their ranges and leave at most one year of days. */
  lemma YearCycleBounds(n: int, y400: int, y100: int, y4: int, y1: int)
    requires 0 <= n <= LastDayNumber
    requires y400 == n / 146097
    requires var n1 := n - y400 * 146097;
      y100 == if n1 / 36524 == 4 then 3 else n1 / 36524
    requires var n2 := n - y400 * 146097 - y100 * 36524;
      y4 == n2 / 1461
    requires var n3 := n - y400 * 146097 - y100 * 36524 - y4 * 1461;
      y1 == if n3 / 365 == 4 then 3 else n3 / 365
    ensures 0 <= y400 <= 24 && 0 <= y100 <= 3 && 0 <= y4 <= 24 && 0 <= y1 <= 3
    ensures var rest := n - y400 * 146097 - y100 * 36524 - y4 * 1461 - y1 * 365;
      && 0 <= rest <= 365
      && (rest == 365 ==> y1 == 3 && (y4 < 24 || y100 == 3))
  {
    var n1 := n - y400 * 146097;
    assert 0 <= n1 < 146097;
    var n2 := n1 - y100 * 36524;
    assert 0 <= n2 <= 36524;
    assert n2 == 36524 ==> y100 == 3;
    var n3 := n2 - y4 * 1461;
    assert 0 <= n3 < 1461;
  }

  /** The year built from the cycle counts is the one that contains day `n`. */
  lemma YearFromCycles(n: int, y400: int, y100: int, y4: int, y1: int)
    requires 0 <= n <= LastDayNumber
    requires y400 == n / 146097
    requires var n1 := n - y400 * 146097;
      y100 == if n1 / 36524 == 4 then 3 else n1 / 36524
    requires var n2 := n - y400 * 146097 - y100 * 36524;
      y4 == n2 / 1461
    requires var n3 := n - y400 * 146097 - y100 * 36524 - y4 * 1461;
      y1 == if n3 / 365 == 4 then 3 else n3 / 365
    ensures var year := y400 * 400 + y100 * 100 + y4 * 4 + y1 + 1;
      1 <= year <= 9999 && DaysBeforeYear(year) <= n < DaysBeforeYear(year + 1)
  {
    YearCycleBounds(n, y400, y100, y4, y1);
    var year := y400 * 400 + y100 * 100 + y4 * 4 + y1 + 1;
    DaysBeforeYearByCycles(y400, y100, y4, y1);
    DaysBeforeNextYear(year);
    if n - DaysBeforeYear(year) == 365 {
      LastYearOfCycleIsLeap(y400, y100, y4);
    }
  }

  /** The last year of a 4-year cycle that is not cut short by a century is a leap year. */
  lemma LastYearOfCycleIsLeap(a: int, b: int, c: int)
    requires a >= 0 && 0 <= b <= 3 && 0 <= c <= 24 && (c < 24 || b == 3)
    ensures IsLeapYear(400 * a + 100 * b + 4 * c + 4)
  {
    var year := 400 * a + 100 * b + 4 * c + 4;
    assert year == 4 * (100 * a + 25 * b + c + 1);
    if c == 24 {
      assert year == 400 * (a + 1);
    } else {
      assert year == 100 * (4 * a + b) + (4 * c + 4) && 0 < 4 * c + 4 < 100;
    }
  }

  /** Later years start later: year `b` starts no earlier than the year after `a`. */
  lemma {:induction false} DaysBeforeYearMonotone(a: int, b: int)
    requires 1 <= a < b
    ensures DaysBeforeYear(a + 1) <= DaysBeforeYear(b)
    decreases b - a
  {
    if a + 1 < b {
      DaysBeforeYearMonotone(a, b - 1);
      DaysBeforeNextYear(b - 1);
    }
  }

  /** Year reads back the year a DateTime was built with. */
  lemma YearOfNewDateTime(year: int, month: int, day: int, hour: int, minute: int, second: int, millisecond: int)
    requires ValidDate(year, month, day) && ValidTimeOfDay(hour, minute, second, millisecond)
    ensures Year(NewDateTime(year, month, day, hour, minute, second, millisecond).value) == year
  {
    var d := NewDateTime(year, month, day, hour, minute, second, millisecond).value;
    var y := Year(d);
    DaysBeforeNextYear(year);
    assert DaysBeforeYear(year) <= DayOf(d) < DaysBeforeYear(year + 1);
    if y < year {
      DaysBeforeYearMonotone(y, year);
    } else if y > year {
      DaysBeforeYearMonotone(year, y);
    }
  }

  /** `d.AddDays(days)` for a whole number of days. */
  function AddDays(d: DateTime, days: int): Result<DateTime> {
    Add(d, days * TicksPerDay)
  }

  /** Two DateTimes show the same clock time, to the millisecond. */
  predicate SameClockTime(a: DateTime, b: DateTime) {
    Hour(a) == Hour(b) && Minute(a) == Minute(b) && Second(a) == Second(b) && Millisecond(a) == Millisecond(b)
  }

  /** The day of the week of a date: the weekday DayOfWeek reports for any DateTime on that date. */
  function WeekdayOf(year: int, month: Month, day: int): int
    requires 1 <= year
  {
    (DayNumber(year, month, day) + 1) % 7
  }

  /** A whole number of days added to a DateTime keeps its clock time and its kind. */
  lemma AddDaysKeepsClockTime(d: DateTime, days: int)
    requires InTickRange(d.ticks + days * TicksPerDay)
    ensures AddDays(d, days).Ok?
    ensures var e := AddDays(d, days).value;
      DayOf(e) == DayOf(d) + days && SameClockTime(e, d) && e.kind == d.kind
  {
    ClockShift(d.ticks, days);
  }

  /** Shifting a tick count by whole days shifts its day number and keeps its clock fields. */
  lemma ClockShift(x: int, days: int)
    ensures (x + days * TicksPerDay) / TicksPerDay == x / TicksPerDay + days
    ensures ((x + days * TicksPerDay) / TicksPerHour) % 24 == (x / TicksPerHour) % 24
    ensures ((x + days * TicksPerDay) / TicksPerMinute) % 60 == (x / TicksPerMinute) % 60
    ensures ((x + days * TicksPerDay) / TicksPerSecond) % 60 == (x / TicksPerSecond) % 60
    ensures ((x + days * TicksPerDay) / TicksPerMillisecond) % 1000 == (x / TicksPerMillisecond) % 1000
  {
    ShiftDays(x, days);
    ShiftHours(x, days);
    ModShift24(x / TicksPerHour, days);
    ShiftMinutes(x, days);
    ModShift60(x / TicksPerMinute, 24 * days);
    ShiftSeconds(x, days);
    ModShift60(x / TicksPerSecond, 1440 * days);
    ShiftMillis(x, days);
    ModShift1000(x / TicksPerMillisecond, 86400 * days);
  }

  lemma ShiftDays(x: int, days: int)
    ensures (x + days * TicksPerDay) / TicksPerDay == x / TicksPerDay + days
  {
  }

  lemma ShiftHours(x: int, days: int)
    ensures (x + days * TicksPerDay) / TicksPerHour == x / TicksPerHour + 24 * days
  {
  }

  lemma ShiftMinutes(x: int, days: int)
    ensures (x + days * TicksPerDay) / TicksPerMinute == x / TicksPerMinute + 60 * (24 * days)
  {
  }

  lemma ShiftSeconds(x: int, days: int)
    ensures (x + days * TicksPerDay) / TicksPerSecond == x / TicksPerSecond + 60 * (1440 * days)
  {
  }

  lemma ShiftMillis(x: int, days: int)
    ensures (x + days * TicksPerDay) / TicksPerMillisecond == x / TicksPerMillisecond + 1000 * (86400 * days)
  {
  }

  lemma ModShift24(q: int, k: int)
    ensures (q + 24 * k) % 24 == q % 24
  {
  }

  lemma ModShift60(q: int, k: int)
    ensures (q + 60 * k) % 60 == q % 60
  {
  }

  lemma ModShift1000(q: int, k: int)
    ensures (q + 1000 * k) % 1000 == q % 1000
  {
  }

  /**
   * Moving a DateTime from one day of a month to another day of the same
   * month with AddDays never leaves the DateTime range, lands on the new
   * day and keeps the clock time and the kind.
   */
  lemma MoveWithinMonth(d: DateTime, year: int, month: Month, day: int, newDay: int)
    requires ValidDate(year, month, day) && ValidDate(year, month, newDay)
    requires DayOf(d) == DayNumber(year, month, day)
    ensures AddDays(d, newDay - day).Ok?
    ensures var e := AddDays(d, newDay - day).value;
      DayOf(e) == DayNumber(year, month, newDay) && SameClockTime(e, d) && e.kind == d.kind
  {
    DayNumberInRange(year, month, newDay);
    var k := newDay - day;
    assert d.ticks < (DayOf(d) + 1) * TicksPerDay;
    assert DayOf(d) + k <= LastDayNumber;
    AddDaysKeepsClockTime(d, k);
  }
}
