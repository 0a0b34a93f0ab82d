/**
 * The time zone libraries the resolvers call into, as oracles: .NET's
 * TimeZoneInfo and the SimpleTimeZone of MichaelBrumm.Globalization. Their
 * code is not part of this model, so each query is a function supplied with
 * the zone, and every property of the resolvers is stated relative to what
 * these functions return.
 */
module Zones {
  import opened Time
  import opened Calendar
  import opened TransitionRules

  /** A TimeZoneInfo, seen through the four queries the resolver makes of it. */
  datatype TimeZoneInfo = TimeZoneInfo(
    /** IsAmbiguousTime(dateTime) */
    isAmbiguousTime: DateTime -> bool,
    /** TimeZoneInfo.ConvertTimeToUtc(dateTime, zone); Err for the exceptions it throws */
    convertTimeToUtc: DateTime -> Result<DateTime>,
    /** GetAmbiguousTimeOffsets(dateTime): the UTC offsets an ambiguous time can have */
    ambiguousTimeOffsets: DateTime -> seq<TimeSpan>,
    /** GetAdjustmentRules() */
    adjustmentRules: seq<AdjustmentRule>)

  /** A MichaelBrumm SimpleTimeZone, seen through the three queries the resolver makes of it. */
  datatype SimpleTimeZone = SimpleTimeZone(
    /** IsAmbiguous(dateTime) */
    isAmbiguous: DateTime -> bool,
    /** ToUniversalTime(dateTime); Err for the exceptions it throws */
    toUniversalTime: DateTime -> Result<DateTime>,
    /** GetDaylightChanges(year), which may be null */
    daylightChanges: int -> Nullable<DaylightTime>)

  /** The kinds both resolvers accept: a local value not of kind Utc, an old value not of kind Local. */
  predicate KindsAccepted(newValueLocal: DateTime, oldValueUtc: DateTime) {
    newValueLocal.kind != Utc && oldValueUtc.kind != Local
  }

  /** `rule.DateStart <= local && rule.DateEnd >= local`. */
  predicate Covers(rule: AdjustmentRule, local: DateTime) {
    rule.dateStart.ticks <= local.ticks && rule.dateEnd.ticks >= local.ticks
  }

  /** The index of the last rule covering `local`, or -1 when none does. */
  function LastCoveringIndex(rules: seq<AdjustmentRule>, local: DateTime): (i: int)
    ensures -1 <= i < |rules|
    ensures i == -1 <==> forall j :: 0 <= j < |rules| ==> !Covers(rules[j], local)
    ensures i >= 0 ==> Covers(rules[i], local) && forall j :: i < j < |rules| ==> !Covers(rules[j], local)
    decreases |rules|
  {
    if |rules| == 0 then -1
    else if Covers(rules[|rules| - 1], local) then |rules| - 1
    else LastCoveringIndex(rules[..|rules| - 1], local)
  }

  /**
   * `GetAdjustmentRules().Last(rule => rule covers local)`: the last
   * covering rule; Enumerable.Last throws InvalidOperationException when no
   * rule covers `local`.
   */
  function ActiveRule(timezone: TimeZoneInfo, local: DateTime): (r: Result<AdjustmentRule>)
    ensures r.Err? <==> forall j :: 0 <= j < |timezone.adjustmentRules| ==> !Covers(timezone.adjustmentRules[j], local)
    ensures r.Err? ==> r.error == InvalidOperationException
    ensures r.Ok? ==> Covers(r.value, local)
    ensures r.Ok? ==> exists i :: 0 <= i < |timezone.adjustmentRules|
                                  && timezone.adjustmentRules[i] == r.value
                                  && forall j :: i < j < |timezone.adjustmentRules| ==> !Covers(timezone.adjustmentRules[j], local)
  {
    var i := LastCoveringIndex(timezone.adjustmentRules, local);
    if i < 0 then Err(InvalidOperationException) else Ok(timezone.adjustmentRules[i])
  }

  /** Every `local - offset` for the zone's ambiguous offsets stays in the DateTime range. */
  predicate ShiftsInRange(local: DateTime, offsets: seq<TimeSpan>) {
    forall k :: 0 <= k < |offsets| ==> InTickRange(local.ticks - offsets[k])
  }

  /**
   * `offsets.FirstOrDefault(offset => (local - offset) == old)`: the first
   * offset that maps `local` onto the old value, or the zero TimeSpan when
   * none does. The subtraction throws for an offset tried before the match
   * that takes `local` out of range.
   */
  function FirstMatchingOffset(local: DateTime, offsets: seq<TimeSpan>, oldValueUtc: DateTime): (r: Result<TimeSpan>)
    ensures r.Err? ==> r.error == ArgumentOutOfRangeException
    ensures r.Ok? && r.value != 0 ==> r.value in offsets && local.ticks - r.value == oldValueUtc.ticks
    // only one offset value can match, so "first" is the match itself
    ensures ShiftsInRange(local, offsets) ==>
      r == Ok(if local.ticks - oldValueUtc.ticks in offsets then local.ticks - oldValueUtc.ticks else 0)
    decreases |offsets|
  {
    if |offsets| == 0 then Ok(0)
    else match Subtract(local, offsets[0])
      case Err(e) => Err(e)
      case Ok(shifted) =>
        if shifted.ticks == oldValueUtc.ticks then Ok(offsets[0])
        else FirstMatchingOffset(local, offsets[1..], oldValueUtc)
  }
}
