# DstExperiment in Dafny

DstExperiment converts a local date-time that a user has just edited back to
UTC. The hard case is the hour that happens twice when daylight saving time
ends: 02:30 local then stands for two UTC instants. The program settles it
with the UTC value the field held before the edit. An old value equal to one
of the two readings means the value was not changed, so it is kept.
Otherwise a `TimeModificationAssumption` policy decides: towards the past,
towards the future, the smaller adjustment, or no opinion.

The model covers:

- the tie-break `ReturnMostLikelyDateTime` (module `TieBreak`);
- the resolver for .NET's `TimeZoneInfo` (`TimeZoneInfoResolver`). Its naive
  conversion reads an ambiguous time as standard time (the later instant);
- the resolver for MichaelBrumm's `SimpleTimeZone` (`SimpleTimeZoneResolver`).
  Its naive conversion reads an ambiguous time as daylight time (the earlier
  instant);
- the DateTime extension-method overloads `ToMostProbableUniversal` in
  `DstExperiment.Extensions`, the ones the TimeZoneInfo and SimpleTimeZone
  handlers call, with their own copies of the enum and the tie-break
  (`DateTimeExtensions`). Each is proved to decide exactly as its
  counterpart in `TimezoneHandlers.Extensions`;
- the resolution of a `TimeZoneInfo.TransitionTime` rule to a date in a year,
  and `GetDaylightTime` (`TransitionRules`);
- the stateless `UtcHandler` (`UtcHandlers`).

The parts of .NET that these use are modelled as well:

- `DateTime` is a tick count from 0 to `DateTime.MaxValue.Ticks` plus a
  `DateTimeKind` (`Time`). Comparison and equality look at the ticks only,
  as in .NET.
- Arithmetic that leaves the range yields `ArgumentOutOfRangeException`.
- The Gregorian calendar behind `new DateTime(...)`, `Year`, `DayOfWeek`,
  `DaysInMonth` and `AddDays` is in `Calendar`.

The zone libraries are oracles (`Zones`): a zone is a record of the query
functions the resolvers call. Every resolver property is therefore stated
in terms of what those queries return. Exceptions are the `Err` side of a
`Result`, and a C# null is `Nullable.Null`.

`Scenarios` works through a Central European zone on 27 October 2024. It
shows that the 2024 rule resolves to 31 March and 27 October, that an
unchanged 02:30 keeps its UTC instant, and which instant each of the six
policies picks for an edit inside the repeated hour.

Behaviour of the code worth knowing, all of it captured by the model:

- **SmallestAdjustment tie:** the `<` at
  `TimezoneHandlers/Extensions/DateTimeExtensions.cs:35` is strict. So an
  exact tie returns secondHour. For a positive daylight delta that is the
  later candidate in both resolvers: naive rather than naive - delta for
  `TimeZoneInfo`, naive + delta rather than naive for `SimpleTimeZone`.
- **A tie in the 27 October example:** an old value of 01:00 UTC is half an
  hour from each of the candidates 00:30 and 01:30 UTC.
  `SmallestAdjustment` gives 01:30 because of the tie rule.
- **No adjustment rule covers an ambiguous time:** `Enumerable.Last` at
  `TimezoneHandlers/Extensions/TimeZoneInfoExtensions.cs:36` throws
  `InvalidOperationException`. The null check at lines 39-40, which would
  return the plain conversion, is never reached.
- **Nonzero offset match in the `TimeZoneInfo` flavour:** line 56 of the
  same file returns `newValueLocal - offset`. That has the old value's ticks
  but the local value's kind. Read as instants, the result is one of naive,
  naive minus the delta, or the old value.

## Model

| member | source | states |
|---|---|---|
| TieBreak.ReturnMostLikelyDateTime | DstExperiment/TimezoneHandlers/Extensions/DateTimeExtensions.cs:17-56 | only null, firstHour or secondHour; null exactly for None, or ToThePast/ToTheFuture without bracketing; bracketing gives firstHour to the past-leaning and secondHour to the future-leaning policies; otherwise SmallToThePast gives secondHour and SmallToTheFuture firstHour; SmallestAdjustment gives firstHour exactly when strictly nearer |
| TieBreak.StrictPoliciesKeepDirection | DstExperiment/TimezoneHandlers/Extensions/DateTimeExtensions.cs:21-32 | a value chosen by ToThePast lies before the old value, one chosen by ToTheFuture after it |
| TieBreak.SmallestAdjustmentIsNearest | DstExperiment/TimezoneHandlers/Extensions/DateTimeExtensions.cs:33-40 | SmallestAdjustment always answers, with a candidate no farther from the old value than either candidate; an exact tie yields secondHour |
| TieBreak.UnorderedCandidatesNeverBracket | DstExperiment/TimezoneHandlers/Extensions/DateTimeExtensions.cs:24-51 | if firstHour is not before secondHour, bracketing never holds and a value comes back exactly for the three "small" policies |
| TieBreak.SmallPoliciesStayClose | DstExperiment/TimezoneHandlers/Extensions/DateTimeExtensions.cs:21-51 | with ordered candidates, SmallToThePast never returns null and returns firstHour iff the old value is strictly between; SmallToTheFuture never returns null and returns secondHour iff the same |
| Zones.LastCoveringIndex | DstExperiment/TimezoneHandlers/Extensions/TimeZoneInfoExtensions.cs:36 | -1 iff no rule has DateStart <= local <= DateEnd; otherwise an index of a covering rule with no covering rule after it |
| Zones.ActiveRule | DstExperiment/TimezoneHandlers/Extensions/TimeZoneInfoExtensions.cs:36-40 | InvalidOperationException exactly when no rule covers the local time, otherwise the last covering rule of the list: no rule after it covers the time (so the null fallback is unreachable) |
| Zones.FirstMatchingOffset | DstExperiment/TimezoneHandlers/Extensions/TimeZoneInfoExtensions.cs:51-52 | errors only with ArgumentOutOfRangeException; a nonzero result is an offset of the list with local - offset == old; when no subtraction leaves the range, the result is local - old if that is in the list and zero otherwise |
| TimeZoneInfoResolver.ConvertTimeToMostProbableUtc | DstExperiment/TimezoneHandlers/Extensions/TimeZoneInfoExtensions.cs:16-85 | null zone gives ArgumentNullException; local kind Utc or old kind Local gives ArgumentException; an unambiguous time gives ConvertTimeToUtc whatever the old value and policy; an ambiguous time no rule covers gives InvalidOperationException |
| TimeZoneInfoResolver.ConvertTimeToMostProbableUtcExtension | DstExperiment/TimezoneHandlers/Extensions/TimeZoneInfoExtensions.cs:10-13 | same result as the static overload with the arguments reordered |
| TimeZoneInfoResolver.ResolveAmbiguous | DstExperiment/TimezoneHandlers/Extensions/TimeZoneInfoExtensions.cs:33-84 | with no covering rule, InvalidOperationException before anything else is asked; any success is the naive reading, naive minus the active rule's delta (with naive's kind), or a value with the old instant's ticks |
| TimeZoneInfoResolver.UnchangedValueIsKept | DstExperiment/TimezoneHandlers/Extensions/TimeZoneInfoExtensions.cs:47-69 | if the old value equals the naive reading, local minus a nonzero ambiguous offset, or naive minus the daylight delta, the result is the old instant for every policy |
| TimeZoneInfoResolver.NaiveMatchIsKept | DstExperiment/TimezoneHandlers/Extensions/TimeZoneInfoExtensions.cs:44-48 | old == naive returns the naive conversion itself, for every policy |
| TimeZoneInfoResolver.OffsetMatchIsKept | DstExperiment/TimezoneHandlers/Extensions/TimeZoneInfoExtensions.cs:51-56 | a nonzero matching offset returns the old instant with the local value's kind |
| TimeZoneInfoResolver.HeuristicPath | DstExperiment/TimezoneHandlers/Extensions/TimeZoneInfoExtensions.cs:63-83 | with nothing unchanged, the result is the tie-break over (naive - delta, naive), or naive when it has no opinion |
| TimeZoneInfoResolver.BracketedOldValue | DstExperiment/TimezoneHandlers/Extensions/TimeZoneInfoExtensions.cs:77-83 | for a positive delta: when the old value lies strictly between naive - delta and naive, the past-leaning policies take naive - delta and the future-leaning ones naive; otherwise SmallToTheFuture takes naive - delta (with naive's kind) and ToThePast, SmallToThePast and ToTheFuture take naive |
| SimpleTimeZoneResolver.ToMostProbableUniversalTime | DstExperiment/TimezoneHandlers/Extensions/SimpleTimeZoneExtensions.cs:10-67 | null zone gives ArgumentNullException; wrong kinds give ArgumentException; an unambiguous time, or a year with null daylight changes, gives ToUniversalTime whatever the old value and policy |
| SimpleTimeZoneResolver.UnchangedValueIsKept | DstExperiment/TimezoneHandlers/Extensions/SimpleTimeZoneExtensions.cs:40-50 | an old value equal to naive or naive + Delta is returned for every policy |
| SimpleTimeZoneResolver.HeuristicPath | DstExperiment/TimezoneHandlers/Extensions/SimpleTimeZoneExtensions.cs:58-64 | otherwise the result is the tie-break over (naive, naive + Delta), or naive when it has no opinion |
| SimpleTimeZoneResolver.AmbiguousResultIsACandidate | DstExperiment/TimezoneHandlers/Extensions/SimpleTimeZoneExtensions.cs:26-65 | every successful ambiguous-path result is naive or naive + Delta |
| SimpleTimeZoneResolver.BracketedOldValue | DstExperiment/TimezoneHandlers/Extensions/SimpleTimeZoneExtensions.cs:58-64 | for a positive delta: when the old value lies strictly between naive and naive + Delta, the past-leaning policies keep naive and the future-leaning ones take naive + Delta; otherwise SmallToThePast takes naive + Delta (with naive's kind) and ToThePast, ToTheFuture and SmallToTheFuture keep naive |
| DateTimeExtensions.ToHandlerAssumption | DstExperiment/Extensions/DateTimeExtensions.cs:8-16 | each member of the duplicate enum maps to the TimezoneHandlers.Extensions member with the same underlying value |
| DateTimeExtensions.ReturnMostLikelyDateTime | DstExperiment/Extensions/DateTimeExtensions.cs:20-59 | decides exactly as the public TimezoneHandlers.Extensions ReturnMostLikelyDateTime for every input, tie included |
| DateTimeExtensions.ToMostProbableUniversal | DstExperiment/Extensions/DateTimeExtensions.cs:61-134 | with a null zone replaced by the local zone, resolves exactly as the TimezoneHandlers.Extensions ConvertTimeToMostProbableUtc (kind checks, plain conversion, unchanged values, heuristic) |
| DateTimeExtensions.ToMostProbableUniversalSimple | DstExperiment/Extensions/DateTimeExtensions.cs:136-197 | a null zone whose lookup fails propagates that failure; otherwise resolves exactly as the TimezoneHandlers.Extensions ToMostProbableUniversalTime with the zone it settles on |
| TransitionRules.TransitionTimeToDateTime | DstExperiment/Extensions/TimeZoneInfoExtensions.cs:119-181 | a year outside 1..9999 gives ArgumentOutOfRangeException, and no other exception is ever raised |
| TransitionRules.FixedDateRuleResolution | DstExperiment/Extensions/TimeZoneInfoExtensions.cs:124-133 | a fixed-date rule lands in the given year and month on min(Day, DaysInMonth), at the rule's clock time |
| TransitionRules.FloatingRuleResolution | DstExperiment/Extensions/TimeZoneInfoExtensions.cs:136-156 | a week-1-to-4 rule lands on a day 1..28 with (day - 1) / 7 == week - 1, on the rule's weekday, at its clock time |
| TransitionRules.FloatingRuleLandsOn | DstExperiment/Extensions/TimeZoneInfoExtensions.cs:136-156 | conversely, any day that is the week-th occurrence of the rule's weekday is the day the rule resolves to |
| TransitionRules.LastWeekRuleResolution | DstExperiment/Extensions/TimeZoneInfoExtensions.cs:157-178 | a rule with week > 4 lands among the month's last seven days, on the rule's weekday, at its clock time |
| TransitionRules.LastWeekRuleLandsOn | DstExperiment/Extensions/TimeZoneInfoExtensions.cs:157-178 | conversely, any of the last seven days on the rule's weekday is the day the rule resolves to |
| TransitionRules.OccurrenceIsUnique | DstExperiment/Extensions/TimeZoneInfoExtensions.cs:139-155 | two days of a month on the same weekday in the same seven-day week are the same day |
| TransitionRules.LastOccurrenceIsUnique | DstExperiment/Extensions/TimeZoneInfoExtensions.cs:159-177 | two of a month's last seven days on the same weekday are the same day |
| TransitionRules.WeeksAboveFourAreLast | DstExperiment/Extensions/TimeZoneInfoExtensions.cs:8-15 | every week number above 4 resolves exactly as WeekOfMonth.Last (5) |
| TransitionRules.FloatingRuleSteps | DstExperiment/Extensions/TimeZoneInfoExtensions.cs:141-155 | the week-1-to-4 branch is AddDays of the forward weekday distance plus 7 * (week - 1) from the first of the month |
| TransitionRules.LastWeekRuleSteps | DstExperiment/Extensions/TimeZoneInfoExtensions.cs:162-177 | the last-week branch is AddDays back by the backward weekday distance from the last of the month |
| TransitionRules.WalkForward | DstExperiment/Extensions/TimeZoneInfoExtensions.cs:144-155 | the forward walk adds 0..27 days, stays in the month and keeps the clock time and kind; it lands on the target weekday in week `week` |
| TransitionRules.WalkBackward | DstExperiment/Extensions/TimeZoneInfoExtensions.cs:167-177 | the backward walk goes back 0..6 days, stays in the month and keeps the clock time and kind; it lands on the target weekday |
| TransitionRules.ResolvesInRange | DstExperiment/Extensions/TimeZoneInfoExtensions.cs:119-181 | a valid transition resolves without an exception in every year 1..9999 |
| TransitionRules.GetDaylightTime | DstExperiment/Extensions/TimeZoneInfoExtensions.cs:110-116 | start and end are the two transitions resolved in the year, and delta is DaylightDelta; for valid transitions it succeeds exactly for years 1..9999 |
| Time.Add | DstExperiment/TimezoneHandlers/Extensions/SimpleTimeZoneExtensions.cs:46 | `d + span` succeeds exactly when the sum lies in the DateTime range, then has those ticks and d's kind; otherwise ArgumentOutOfRangeException |
| Time.Subtract | DstExperiment/TimezoneHandlers/Extensions/TimeZoneInfoExtensions.cs:52-65 | `d - span` succeeds exactly when the difference lies in the DateTime range, then has those ticks and d's kind; otherwise ArgumentOutOfRangeException |
| Time.SubtractUndoesAdd | DstExperiment/TimezoneHandlers/Extensions/SimpleTimeZoneExtensions.cs:46 | subtracting a span after adding it gives back the original DateTime, kind included |
| Calendar.DaysInMonth | DstExperiment/Extensions/TimeZoneInfoExtensions.cs:129 | 28 to 31 days; February has 29 days in a leap year and 28 otherwise; other months have at least 30 |
| Calendar.MonthLengths | DstExperiment/Extensions/TimeZoneInfoExtensions.cs:162 | April, June, September and November have 30 days; the other months except February have 31 |
| Calendar.NewDateTime | DstExperiment/Extensions/TimeZoneInfoExtensions.cs:131-132 | succeeds exactly for a valid date of years 1..9999 and a valid time of day, otherwise ArgumentOutOfRangeException; the result is Unspecified and its day, hour, minute, second and millisecond read back as given |
| Calendar.DayOfWeek | DstExperiment/Extensions/TimeZoneInfoExtensions.cs:144 | the weekday is in 0..6 (Sunday is 0) |
| Calendar.WeekdayMoves | DstExperiment/Extensions/TimeZoneInfoExtensions.cs:167 | a DateTime `days` whole days after another has DayOfWeek moved on by `days`, mod 7 |
| Calendar.Hour | DstExperiment/Extensions/TimeZoneInfoExtensions.cs:131-132 | the hour is in 0..23 |
| Calendar.Minute | DstExperiment/Extensions/TimeZoneInfoExtensions.cs:131-132 | the minute is in 0..59 |
| Calendar.Second | DstExperiment/Extensions/TimeZoneInfoExtensions.cs:131-132 | the second is in 0..59 |
| Calendar.Millisecond | DstExperiment/Extensions/TimeZoneInfoExtensions.cs:131-132 | the millisecond is in 0..999 |
| Calendar.FieldsOfTicks | DstExperiment/Extensions/TimeZoneInfoExtensions.cs:131-132 | a tick count laid out from a day number and a time of day reads back that day, hour, minute, second and millisecond |
| Calendar.Year | DstExperiment/Extensions/DateTimeExtensions.cs:160 | a year 1..9999 whose days contain the DateTime's day |
| Calendar.YearOfNewDateTime | DstExperiment/TimezoneHandlers/Extensions/SimpleTimeZoneExtensions.cs:29 | Year of a DateTime built from (year, month, day, ...) is that year |
| Calendar.MoveWithinMonth | DstExperiment/Extensions/TimeZoneInfoExtensions.cs:154 | AddDays within one month stays in range, lands on the new day, and keeps the clock time and kind |
| Calendar.AddDaysKeepsClockTime | DstExperiment/Extensions/TimeZoneInfoExtensions.cs:176 | AddDays moves the day number by the days added and keeps the clock time and kind |
| UtcHandlers.UtcHandler.HandlerType | DstExperiment/TimezoneHandlers/UtcHandler.cs:9 | the handler type is UtcHandler |
| UtcHandlers.RoundTrips | DstExperiment/TimezoneHandlers/UtcHandler.cs:11-19 | both conversions are the identity, so each round trip returns the input, kind included |
| UtcHandlers.ResolvesAsUnambiguous | DstExperiment/TimezoneHandlers/UtcHandler.cs:21-34 | no time is ambiguous or in daylight time; the most probable UTC value is the new local value, whatever the old value and policy |
| Scenarios.Transitions2024 | DstExperiment/Extensions/TimeZoneInfoExtensions.cs:110-116 | a last-Sunday rule resolves in 2024 to 31 March 02:00 and 27 October 03:00 |
| Scenarios.LastSundayOfMarch2023 | DstExperiment/Extensions/TimeZoneInfoExtensions.cs:157-178 | the last Sunday of March 2023 is the 26th, which is not the month's last day |
| Scenarios.UnchangedDaylightReadingIsKept | DstExperiment/TimezoneHandlers/Extensions/TimeZoneInfoExtensions.cs:51-56 | re-saving 02:30 stored as 00:30 UTC keeps 00:30 UTC under every policy |
| Scenarios.EditInsideRepeatedHour | DstExperiment/TimezoneHandlers/Extensions/TimeZoneInfoExtensions.cs:77-83 | for old value 01:00 UTC and new value 02:30 local, ToThePast and SmallToThePast give 00:30 UTC; ToTheFuture, SmallToTheFuture, SmallestAdjustment (a tie) and None (no opinion, so the naive reading) give 01:30 UTC |
| Scenarios.SimpleZoneKeepsStandardReading | DstExperiment/TimezoneHandlers/Extensions/SimpleTimeZoneExtensions.cs:49-50 | in the SimpleTimeZone flavour, an old value of 01:30 UTC, the standard reading of 02:30, is kept |

## Left out

- The console harness (`Program`, `DstTransitionSimulator`) and `WriteAdjustmentRules` only print. They have no contract.
- `TimeZoneInfoHandler` and `SimpleTimeZoneHandler` only forward to the two libraries. The libraries' code is not part of this model; their queries are oracle functions of a zone record.
- `ITimezoneHandler` is an interface with no behaviour. Dafny traits are not used here, so `UtcHandler` is a datatype with the interface's members.
- `TimeZoneInfo.Local` and `TimeZones.GetTimeZones().First(...)` depend on the machine. The DstExperiment.Extensions overloads take the default zone as a parameter: `localZone`, or `currentZone` as the lookup's outcome.
- The `oldValueUTC == null` checks of the DstExperiment.Extensions overloads can never fire, because `DateTime` is a struct.
- Distances are compared in whole ticks. The code compares `TotalMilliseconds` as doubles, and the model does not capture that rounding.
- The C# optional argument `timeModificationAssumption = TimeModificationAssumption.None` is a required parameter in every resolver and handler here; a caller that omitted it corresponds to passing `None`.
- `UtcHandler.Description` keeps the text of the code; its contract says only that the text is not empty.
- The transition rules read only the clock fields of `TimeOfDay`. `TransitionTime`'s factory checks on those fields (multiple of a millisecond, date 0001-01-01) are not modelled.
