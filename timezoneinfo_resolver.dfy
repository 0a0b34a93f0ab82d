/**
 * ConvertTimeToMostProbableUtc for a TimeZoneInfo zone: converts a local
 * time the user entered into UTC, and when that local time is ambiguous
 * (it occurs twice at the end of daylight saving time) uses the value the
 * field held before the edit to choose between its two UTC readings.
 *
 * The zone's naive conversion reads an ambiguous time as standard time,
 * the later of the two instants ("second hour"); subtracting the active
 * rule's daylight delta gives the daylight reading ("first hour").
 */
module TimeZoneInfoResolver {
  import opened Time
  import opened TransitionRules
  import opened Zones
  import opened TieBreak

  /** The static overload: (newValueLocal, timezone, oldValueUtc, assumption). */
  function ConvertTimeToMostProbableUtc(newValueLocal: DateTime, timezone: Nullable<TimeZoneInfo>,
                                        oldValueUtc: DateTime, assumption: TimeModificationAssumption): (r: Result<DateTime>)
    ensures timezone.Null? ==> r == Err(ArgumentNullException)
    ensures timezone.HasValue? && !KindsAccepted(newValueLocal, oldValueUtc) ==> r == Err(ArgumentException)
    // an unambiguous time gets the zone's plain conversion, whatever the old value and the policy
    ensures timezone.HasValue? && KindsAccepted(newValueLocal, oldValueUtc)
            && !timezone.value.isAmbiguousTime(newValueLocal) ==>
              r == timezone.value.convertTimeToUtc(newValueLocal)
    // an ambiguous time that no adjustment rule covers: Enumerable.Last throws
    ensures timezone.HasValue? && KindsAccepted(newValueLocal, oldValueUtc)
            && timezone.value.isAmbiguousTime(newValueLocal)
            && ActiveRule(timezone.value, newValueLocal).Err? ==>
              r == Err(InvalidOperationException)
  {
    if timezone.Null? then Err(ArgumentNullException)
    else if newValueLocal.kind == Utc then Err(ArgumentException)
    else if oldValueUtc.kind == Local then Err(ArgumentException)
    else
      var tz := timezone.value;
      if !tz.isAmbiguousTime(newValueLocal) then tz.convertTimeToUtc(newValueLocal)
      else ResolveAmbiguous(tz, newValueLocal, oldValueUtc, assumption)
  }

  /** The extension-method overload: (timezone, newValueLocal, oldValueUtc, assumption). */
  function ConvertTimeToMostProbableUtcExtension(timezone: Nullable<TimeZoneInfo>, newValueLocal: DateTime,
                                                 oldValueUtc: DateTime, assumption: TimeModificationAssumption): (r: Result<DateTime>)
    ensures r == ConvertTimeToMostProbableUtc(newValueLocal, timezone, oldValueUtc, assumption)
  {
    ConvertTimeToMostProbableUtc(newValueLocal, timezone, oldValueUtc, assumption)
  }

  /** The ambiguous branch of ConvertTimeToMostProbableUtc. */
  function ResolveAmbiguous(tz: TimeZoneInfo, newValueLocal: DateTime, oldValueUtc: DateTime,
                            assumption: TimeModificationAssumption): (r: Result<DateTime>)
    // Enumerable.Last throws before anything else is asked of the zone
    ensures ActiveRule(tz, newValueLocal).Err? ==> r == Err(InvalidOperationException)
    // a result is the naive reading, the naive reading moved back by the delta, or the old instant
    ensures r.Ok? ==>
      && ActiveRule(tz, newValueLocal).Ok?
      && tz.convertTimeToUtc(newValueLocal).Ok?
      && var naive := tz.convertTimeToUtc(newValueLocal).value;
      || r.value == naive
      || r.value.ticks == oldValueUtc.ticks
      || (r.value.ticks == naive.ticks - ActiveRule(tz, newValueLocal).value.daylightDelta && r.value.kind == naive.kind)
  {
    match ActiveRule(tz, newValueLocal)
    case Err(e) => Err(e)
    case Ok(activeDstRule) =>
      match tz.convertTimeToUtc(newValueLocal)
      case Err(e) => Err(e)
      case Ok(naiveNewUtc) =>
        // the unchanged second-hour reading
        if naiveNewUtc.ticks == oldValueUtc.ticks then Ok(naiveNewUtc)
        else match FirstMatchingOffset(newValueLocal, tz.ambiguousTimeOffsets(newValueLocal), oldValueUtc)
          case Err(e) => Err(e)
          case Ok(matchingUtcOffset) =>
            // an unchanged value found through the zone's offsets; a zero offset reads as no match
            if matchingUtcOffset != 0 then Subtract(newValueLocal, matchingUtcOffset)
            else match Subtract(naiveNewUtc, activeDstRule.daylightDelta)
              case Err(e) => Err(e)
              case Ok(adjustedNewUtc) =>
                // the unchanged first-hour reading
                if adjustedNewUtc.ticks == oldValueUtc.ticks then Ok(adjustedNewUtc)
                else Ok(ReturnMostLikelyDateTime(adjustedNewUtc, naiveNewUtc, oldValueUtc, assumption).OrElse(naiveNewUtc))
  }

  /**
   * The facts the ambiguous path starts from: accepted kinds, an ambiguous
   * time, a rule that covers it, a successful naive conversion and offsets
   * that keep the local time in range.
   */
  predicate AmbiguousWith(tz: TimeZoneInfo, newValueLocal: DateTime, oldValueUtc: DateTime) {
    && KindsAccepted(newValueLocal, oldValueUtc)
    && tz.isAmbiguousTime(newValueLocal)
    && ActiveRule(tz, newValueLocal).Ok?
    && tz.convertTimeToUtc(newValueLocal).Ok?
    && ShiftsInRange(newValueLocal, tz.ambiguousTimeOffsets(newValueLocal))
  }

  /** The naive, second-hour, UTC reading of an ambiguous time. */
  function Naive(tz: TimeZoneInfo, newValueLocal: DateTime, oldValueUtc: DateTime): DateTime
    requires AmbiguousWith(tz, newValueLocal, oldValueUtc)
  {
    tz.convertTimeToUtc(newValueLocal).value
  }

  /** The daylight delta of the rule active at the ambiguous time. */
  function Delta(tz: TimeZoneInfo, newValueLocal: DateTime, oldValueUtc: DateTime): TimeSpan
    requires AmbiguousWith(tz, newValueLocal, oldValueUtc)
  {
    ActiveRule(tz, newValueLocal).value.daylightDelta
  }

  /**
   * The old value names one of the readings of the ambiguous time: the
   * naive one, the local time shifted by a nonzero ambiguous offset, or the
   * naive one moved back by the daylight delta.
   */
  predicate Unchanged(tz: TimeZoneInfo, newValueLocal: DateTime, oldValueUtc: DateTime)
    requires AmbiguousWith(tz, newValueLocal, oldValueUtc)
  {
    var naive := Naive(tz, newValueLocal, oldValueUtc);
    var shift := newValueLocal.ticks - oldValueUtc.ticks;
    || oldValueUtc.ticks == naive.ticks
    || (shift != 0 && shift in tz.ambiguousTimeOffsets(newValueLocal))
    || oldValueUtc.ticks == naive.ticks - Delta(tz, newValueLocal, oldValueUtc)
  }

  /** An unchanged value is kept: whichever reading the old value names, the result is that instant. */
  lemma UnchangedValueIsKept(tz: TimeZoneInfo, newValueLocal: DateTime, oldValueUtc: DateTime,
                             assumption: TimeModificationAssumption)
    requires AmbiguousWith(tz, newValueLocal, oldValueUtc)
    requires Unchanged(tz, newValueLocal, oldValueUtc)
    ensures var r := ConvertTimeToMostProbableUtc(newValueLocal, HasValue(tz), oldValueUtc, assumption);
      r.Ok? && r.value.ticks == oldValueUtc.ticks
  {
  }

  /**
   * An old value equal to the naive reading is returned as that reading,
   * for every policy.
   */
  lemma NaiveMatchIsKept(tz: TimeZoneInfo, newValueLocal: DateTime, oldValueUtc: DateTime,
                         assumption: TimeModificationAssumption)
    requires KindsAccepted(newValueLocal, oldValueUtc) && tz.isAmbiguousTime(newValueLocal)
    requires ActiveRule(tz, newValueLocal).Ok?
    requires tz.convertTimeToUtc(newValueLocal).Ok?
    requires tz.convertTimeToUtc(newValueLocal).value.ticks == oldValueUtc.ticks
    ensures ConvertTimeToMostProbableUtc(newValueLocal, HasValue(tz), oldValueUtc, assumption)
            == tz.convertTimeToUtc(newValueLocal)
  {
  }

  /**
   * An offset match short-circuits only when the offset is nonzero: the
   * result is then the local time minus that offset, which is the old
   * instant and keeps the local value's kind.
   */
  lemma OffsetMatchIsKept(tz: TimeZoneInfo, newValueLocal: DateTime, oldValueUtc: DateTime,
                          assumption: TimeModificationAssumption)
    requires AmbiguousWith(tz, newValueLocal, oldValueUtc)
    requires Naive(tz, newValueLocal, oldValueUtc).ticks != oldValueUtc.ticks
    requires newValueLocal.ticks - oldValueUtc.ticks in tz.ambiguousTimeOffsets(newValueLocal)
    requires newValueLocal.ticks != oldValueUtc.ticks
    ensures ConvertTimeToMostProbableUtc(newValueLocal, HasValue(tz), oldValueUtc, assumption)
            == Ok(DateTime(oldValueUtc.ticks, newValueLocal.kind))
  {
  }

  /**
   * On the heuristic path, once no reading matches the old value, the
   * result is the tie-break over (naive - delta, naive), falling back to
   * the naive reading when the tie-break has no opinion.
   */
  lemma HeuristicPath(tz: TimeZoneInfo, newValueLocal: DateTime, oldValueUtc: DateTime,
                      assumption: TimeModificationAssumption)
    requires AmbiguousWith(tz, newValueLocal, oldValueUtc)
    requires !Unchanged(tz, newValueLocal, oldValueUtc)
    requires InTickRange(Naive(tz, newValueLocal, oldValueUtc).ticks - Delta(tz, newValueLocal, oldValueUtc))
    ensures var naive := Naive(tz, newValueLocal, oldValueUtc);
      var adjusted := Subtract(naive, Delta(tz, newValueLocal, oldValueUtc)).value;
      ConvertTimeToMostProbableUtc(newValueLocal, HasValue(tz), oldValueUtc, assumption)
        == Ok(ReturnMostLikelyDateTime(adjusted, naive, oldValueUtc, assumption).OrElse(naive))
  {
  }

  /**
   * With a positive daylight delta: when the old value lies strictly
   * between the daylight (first-hour) reading and the naive reading, a
   * past-leaning policy picks the daylight reading and a future-leaning one
   * the naive reading; otherwise SmallToTheFuture picks the daylight
   * reading and the other directional policies the naive one.
   */
  lemma BracketedOldValue(tz: TimeZoneInfo, newValueLocal: DateTime, oldValueUtc: DateTime,
                          assumption: TimeModificationAssumption)
    requires AmbiguousWith(tz, newValueLocal, oldValueUtc)
    requires !Unchanged(tz, newValueLocal, oldValueUtc)
    requires Delta(tz, newValueLocal, oldValueUtc) > 0
    requires InTickRange(Naive(tz, newValueLocal, oldValueUtc).ticks - Delta(tz, newValueLocal, oldValueUtc))
    requires assumption.PastLeaning() || assumption.FutureLeaning()
    ensures var naive := Naive(tz, newValueLocal, oldValueUtc);
      var first := naive.ticks - Delta(tz, newValueLocal, oldValueUtc);
      var r := ConvertTimeToMostProbableUtc(newValueLocal, HasValue(tz), oldValueUtc, assumption);
      && r.Ok?
      && (first < oldValueUtc.ticks < naive.ticks ==>
            r.value.ticks == (if assumption.PastLeaning() then first else naive.ticks))
      && (!(first < oldValueUtc.ticks < naive.ticks) ==>
            r.value == (if assumption == SmallToThePast || !assumption.Small() then naive
                        else DateTime(first, naive.kind)))
  {
    HeuristicPath(tz, newValueLocal, oldValueUtc, assumption);
  }
}
