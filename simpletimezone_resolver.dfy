/**
 * ToMostProbableUniversalTime for a SimpleTimeZone zone: the same
 * resolution as for TimeZoneInfo, with the library's other convention. Its
 * naive conversion reads an ambiguous time as daylight time, the earlier of
 * the two instants ("first hour"); adding the year's daylight delta gives
 * the standard reading ("second hour").
 */
module SimpleTimeZoneResolver {
  import opened Time
  import opened Calendar
  import opened TransitionRules
  import opened Zones
  import opened TieBreak

  function ToMostProbableUniversalTime(timezone: Nullable<SimpleTimeZone>, newValueLocal: DateTime,
                                       oldValueUtc: DateTime, assumption: TimeModificationAssumption): (r: Result<DateTime>)
    ensures timezone.Null? ==> r == Err(ArgumentNullException)
    ensures timezone.HasValue? && !KindsAccepted(newValueLocal, oldValueUtc) ==> r == Err(ArgumentException)
    // an unambiguous time gets the zone's plain conversion, whatever the old value and the policy
    ensures timezone.HasValue? && KindsAccepted(newValueLocal, oldValueUtc)
            && !timezone.value.isAmbiguous(newValueLocal) ==>
              r == timezone.value.toUniversalTime(newValueLocal)
    // no daylight changes for the local time's year: the plain conversion as well
    ensures timezone.HasValue? && KindsAccepted(newValueLocal, oldValueUtc)
            && timezone.value.daylightChanges(Year(newValueLocal)).Null? ==>
              r == timezone.value.toUniversalTime(newValueLocal)
  {
    if timezone.Null? then Err(ArgumentNullException)
    else if newValueLocal.kind == Utc then Err(ArgumentException)
    else if oldValueUtc.kind == Local then Err(ArgumentException)
    else
      var tz := timezone.value;
      if !tz.isAmbiguous(newValueLocal) then tz.toUniversalTime(newValueLocal)
      else match tz.daylightChanges(Year(newValueLocal))
        case Null => tz.toUniversalTime(newValueLocal)
        case HasValue(activeDstRule) =>
          match tz.toUniversalTime(newValueLocal)
          case Err(e) => Err(e)
          case Ok(naiveNewUtc) =>
            // the unchanged first-hour reading
            if naiveNewUtc.ticks == oldValueUtc.ticks then Ok(naiveNewUtc)
            else match Add(naiveNewUtc, activeDstRule.delta)
              case Err(e) => Err(e)
              case Ok(adjustedNewUtc) =>
                // the unchanged second-hour reading
                if adjustedNewUtc.ticks == oldValueUtc.ticks then Ok(adjustedNewUtc)
                else Ok(ReturnMostLikelyDateTime(naiveNewUtc, adjustedNewUtc, oldValueUtc, assumption).OrElse(naiveNewUtc))
  }

  /**
   * The facts the ambiguous path starts from: accepted kinds, an ambiguous
   * time, daylight changes for its year and a successful naive conversion.
   */
  predicate AmbiguousWith(tz: SimpleTimeZone, newValueLocal: DateTime, oldValueUtc: DateTime) {
    && KindsAccepted(newValueLocal, oldValueUtc)
    && tz.isAmbiguous(newValueLocal)
    && tz.daylightChanges(Year(newValueLocal)).HasValue?
    && tz.toUniversalTime(newValueLocal).Ok?
  }

  /** The naive, first-hour, UTC reading of an ambiguous time. */
  function Naive(tz: SimpleTimeZone, newValueLocal: DateTime, oldValueUtc: DateTime): DateTime
    requires AmbiguousWith(tz, newValueLocal, oldValueUtc)
  {
    tz.toUniversalTime(newValueLocal).value
  }

  /** The daylight delta of the local time's year. */
  function Delta(tz: SimpleTimeZone, newValueLocal: DateTime, oldValueUtc: DateTime): TimeSpan
    requires AmbiguousWith(tz, newValueLocal, oldValueUtc)
  {
    tz.daylightChanges(Year(newValueLocal)).value.delta
  }

  /**
   * Unchanged-value stability: an old value equal to either reading, the
   * naive one or the naive one moved on by the delta, is returned for
   * every policy.
   */
  lemma UnchangedValueIsKept(tz: SimpleTimeZone, newValueLocal: DateTime, oldValueUtc: DateTime,
                             assumption: TimeModificationAssumption)
    requires AmbiguousWith(tz, newValueLocal, oldValueUtc)
    requires var naive := Naive(tz, newValueLocal, oldValueUtc);
      oldValueUtc.ticks == naive.ticks || oldValueUtc.ticks == naive.ticks + Delta(tz, newValueLocal, oldValueUtc)
    ensures var r := ToMostProbableUniversalTime(HasValue(tz), newValueLocal, oldValueUtc, assumption);
      r.Ok? && r.value.ticks == oldValueUtc.ticks
  {
  }

  /**
   * On the heuristic path the first candidate is the naive reading and the
   * second the naive reading plus the delta; no opinion means the naive
   * reading.
   */
  lemma HeuristicPath(tz: SimpleTimeZone, newValueLocal: DateTime, oldValueUtc: DateTime,
                      assumption: TimeModificationAssumption)
    requires AmbiguousWith(tz, newValueLocal, oldValueUtc)
    requires var naive := Naive(tz, newValueLocal, oldValueUtc);
      && oldValueUtc.ticks != naive.ticks
      && oldValueUtc.ticks != naive.ticks + Delta(tz, newValueLocal, oldValueUtc)
      && InTickRange(naive.ticks + Delta(tz, newValueLocal, oldValueUtc))
    ensures var naive := Naive(tz, newValueLocal, oldValueUtc);
      var adjusted := Add(naive, Delta(tz, newValueLocal, oldValueUtc)).value;
      ToMostProbableUniversalTime(HasValue(tz), newValueLocal, oldValueUtc, assumption)
        == Ok(ReturnMostLikelyDateTime(naive, adjusted, oldValueUtc, assumption).OrElse(naive))
  {
  }

  /**
   * Whatever the policy, an ambiguous time with daylight changes resolves
   * to one of its two readings: the naive one or the naive one plus the
   * delta.
   */
  lemma AmbiguousResultIsACandidate(tz: SimpleTimeZone, newValueLocal: DateTime, oldValueUtc: DateTime,
                                    assumption: TimeModificationAssumption)
    requires KindsAccepted(newValueLocal, oldValueUtc) && tz.isAmbiguous(newValueLocal)
    requires tz.daylightChanges(Year(newValueLocal)).HasValue?
    ensures var r := ToMostProbableUniversalTime(HasValue(tz), newValueLocal, oldValueUtc, assumption);
      r.Ok? ==>
        && tz.toUniversalTime(newValueLocal).Ok?
        && var naive := tz.toUniversalTime(newValueLocal).value;
        || r.value == naive
        || r.value == DateTime(naive.ticks + tz.daylightChanges(Year(newValueLocal)).value.delta, naive.kind)
  {
  }

  /**
   * With a positive delta: when the old value lies strictly between the
   * naive (daylight) reading and the standard reading, a past-leaning
   * policy keeps the naive reading and a future-leaning one takes the
   * standard reading; otherwise SmallToThePast takes the standard reading
   * and the other directional policies keep the naive one.
   */
  lemma BracketedOldValue(tz: SimpleTimeZone, newValueLocal: DateTime, oldValueUtc: DateTime,
                          assumption: TimeModificationAssumption)
    requires AmbiguousWith(tz, newValueLocal, oldValueUtc)
    requires var naive := Naive(tz, newValueLocal, oldValueUtc);
      && Delta(tz, newValueLocal, oldValueUtc) > 0
      && oldValueUtc.ticks != naive.ticks
      && oldValueUtc.ticks != naive.ticks + Delta(tz, newValueLocal, oldValueUtc)
      && InTickRange(naive.ticks + Delta(tz, newValueLocal, oldValueUtc))
    requires assumption.PastLeaning() || assumption.FutureLeaning()
    ensures var naive := Naive(tz, newValueLocal, oldValueUtc);
      var second := naive.ticks + Delta(tz, newValueLocal, oldValueUtc);
      var r := ToMostProbableUniversalTime(HasValue(tz), newValueLocal, oldValueUtc, assumption);
      && r.Ok?
      && (naive.ticks < oldValueUtc.ticks < second ==>
            r.value.ticks == (if assumption.PastLeaning() then naive.ticks else second))
      && (!(naive.ticks < oldValueUtc.ticks < second) ==>
            r.value == (if assumption == SmallToThePast then DateTime(second, naive.kind) else naive))
  {
    HeuristicPath(tz, newValueLocal, oldValueUtc, assumption);
  }
}
