/**
 * The DateTime extension methods of DstExperiment.Extensions, the ones the
 * TimeZoneInfo and SimpleTimeZone handlers call: their own copy of the
 * assumption enum and of the tie-break, and one ToMostProbableUniversal
 * overload per zone library. A null zone means the machine's own zone;
 * that zone is an input here, since it depends on the environment. Each
 * is proved to decide exactly as its counterpart in
 * TimezoneHandlers.Extensions.
 */
module DateTimeExtensions {
  import opened Time
  import opened Calendar
  import opened Zones
  import TieBreak
  import TimeZoneInfoResolver
  import SimpleTimeZoneResolver

  /** This namespace's TimeModificationAssumption: the same members and values as the one in TimezoneHandlers.Extensions. */
  datatype TimeModificationAssumption =
    | None
    | ToThePast
    | ToTheFuture
    | SmallToThePast
    | SmallToTheFuture
    | SmallestAdjustment

  /** The TimezoneHandlers.Extensions enum member with the same underlying value. */
  function ToHandlerAssumption(assumption: TimeModificationAssumption): (a: TieBreak.TimeModificationAssumption)
    ensures a.Value() == match assumption
      case None => 0
      case ToThePast => 1
      case ToTheFuture => 2
      case SmallToThePast => 3
      case SmallToTheFuture => 4
      case SmallestAdjustment => 5
  {
    match assumption
    case None => TieBreak.None
    case ToThePast => TieBreak.ToThePast
    case ToTheFuture => TieBreak.ToTheFuture
    case SmallToThePast => TieBreak.SmallToThePast
    case SmallToTheFuture => TieBreak.SmallToTheFuture
    case SmallestAdjustment => TieBreak.SmallestAdjustment
  }

  /** The private ReturnMostLikelyDateTime of this namespace; it decides exactly as the public one in TimezoneHandlers.Extensions. */
  function ReturnMostLikelyDateTime(firstHour: DateTime, secondHour: DateTime, oldValueUtc: DateTime,
                                    assumption: TimeModificationAssumption): (r: Nullable<DateTime>)
    ensures r == TieBreak.ReturnMostLikelyDateTime(firstHour, secondHour, oldValueUtc, ToHandlerAssumption(assumption))
  {
    var bracketed := firstHour.ticks < oldValueUtc.ticks && secondHour.ticks > oldValueUtc.ticks;
    var early := match assumption
      case ToThePast | SmallToThePast => if bracketed then HasValue(firstHour) else Null
      case ToTheFuture | SmallToTheFuture => if bracketed then HasValue(secondHour) else Null
      case SmallestAdjustment =>
        if Distance(oldValueUtc, firstHour) < Distance(oldValueUtc, secondHour) then HasValue(firstHour)
        else HasValue(secondHour)
      case None => Null;
    if early.HasValue? then early
    else match assumption
      case SmallToThePast => HasValue(secondHour)
      case SmallToTheFuture => HasValue(firstHour)
      case _ => Null
  }

  /**
   * ToMostProbableUniversal for a TimeZoneInfo zone, `localZone` standing
   * for TimeZoneInfo.Local. It resolves exactly as ConvertTimeToMostProbableUtc
   * of TimezoneHandlers.Extensions does with the zone it settles on.
   */
  function ToMostProbableUniversal(newValueLocal: DateTime, oldValueUtc: DateTime, assumption: TimeModificationAssumption,
                                   timezone: Nullable<TimeZoneInfo>, localZone: TimeZoneInfo): (r: Result<DateTime>)
    ensures r == TimeZoneInfoResolver.ConvertTimeToMostProbableUtc(
      newValueLocal, HasValue(timezone.OrElse(localZone)), oldValueUtc, ToHandlerAssumption(assumption))
  {
    var tz := timezone.OrElse(localZone);
    if newValueLocal.kind == Utc then Err(ArgumentException)
    else if oldValueUtc.kind == Local then Err(ArgumentException)
    else if !tz.isAmbiguousTime(newValueLocal) then tz.convertTimeToUtc(newValueLocal)
    else
      match ActiveRule(tz, newValueLocal)
      case Err(e) => Err(e)
      case Ok(activeDstRule) =>
        match tz.convertTimeToUtc(newValueLocal)
        case Err(e) => Err(e)
        case Ok(naiveNewUtc) =>
          if naiveNewUtc.ticks == oldValueUtc.ticks then Ok(naiveNewUtc)
          else match FirstMatchingOffset(newValueLocal, tz.ambiguousTimeOffsets(newValueLocal), oldValueUtc)
            case Err(e) => Err(e)
            case Ok(matchingUtcOffset) =>
              if matchingUtcOffset != 0 then Subtract(newValueLocal, matchingUtcOffset)
              else match Subtract(naiveNewUtc, activeDstRule.daylightDelta)
                case Err(e) => Err(e)
                case Ok(adjustedNewUtc) =>
                  if adjustedNewUtc.ticks == oldValueUtc.ticks then Ok(adjustedNewUtc)
                  else Ok(ReturnMostLikelyDateTime(adjustedNewUtc, naiveNewUtc, oldValueUtc, assumption).OrElse(naiveNewUtc))
  }

  /**
   * ToMostProbableUniversal for a SimpleTimeZone zone. `currentZone` is the
   * outcome of looking up the zone whose standard name is the machine's:
   * Err when Enumerable.First finds none. With a zone in hand it resolves
   * exactly as ToMostProbableUniversalTime of
   * TimezoneHandlers.Extensions does.
   */
  function ToMostProbableUniversalSimple(newValueLocal: DateTime, oldValueUtc: DateTime, assumption: TimeModificationAssumption,
                                         timezone: Nullable<SimpleTimeZone>, currentZone: Result<SimpleTimeZone>): (r: Result<DateTime>)
    ensures timezone.Null? && currentZone.Err? ==> r == Err(currentZone.error)
    ensures timezone.HasValue? || currentZone.Ok? ==>
      r == SimpleTimeZoneResolver.ToMostProbableUniversalTime(
        HasValue(if timezone.HasValue? then timezone.value else currentZone.value),
        newValueLocal, oldValueUtc, ToHandlerAssumption(assumption))
  {
    if timezone.Null? && currentZone.Err? then Err(currentZone.error)
    else
      var tz := if timezone.HasValue? then timezone.value else currentZone.value;
      if newValueLocal.kind == Utc then Err(ArgumentException)
      else if oldValueUtc.kind == Local then Err(ArgumentException)
      else if !tz.isAmbiguous(newValueLocal) then tz.toUniversalTime(newValueLocal)
      else match tz.daylightChanges(Year(newValueLocal))
        case Null => tz.toUniversalTime(newValueLocal)
        case HasValue(activeDstRule) =>
          match tz.toUniversalTime(newValueLocal)
          case Err(e) => Err(e)
          case Ok(naiveNewUtc) =>
            if naiveNewUtc.ticks == oldValueUtc.ticks then Ok(naiveNewUtc)
            else match Add(naiveNewUtc, activeDstRule.delta)
              case Err(e) => Err(e)
              case Ok(adjustedNewUtc) =>
                if adjustedNewUtc.ticks == oldValueUtc.ticks then Ok(adjustedNewUtc)
                else Ok(ReturnMostLikelyDateTime(naiveNewUtc, adjustedNewUtc, oldValueUtc, assumption).OrElse(naiveNewUtc))
  }
}
