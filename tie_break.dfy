/**
 * The tie-break heuristic of TimezoneHandlers.Extensions: given the two UTC
 * instants an ambiguous local time can stand for (the earlier, "first
 * hour", reading and the later, "second hour", one) and the UTC value the
 * field held before the edit, pick the instant the user most likely meant,
 * or give no opinion.
 */
module TieBreak {
  import opened Time

  /** What the caller assumes about the direction and size of the edit. */
  datatype TimeModificationAssumption =
    | None
    | ToThePast
    | ToTheFuture
    | SmallToThePast
    | SmallToTheFuture
    | SmallestAdjustment
  {
    /** The underlying value of the C# enum member. */
    function Value(): int {
      match this
      case None => 0
      case ToThePast => 1
      case ToTheFuture => 2
      case SmallToThePast => 3
      case SmallToTheFuture => 4
      case SmallestAdjustment => 5
    }

    predicate PastLeaning() {
      this == ToThePast || this == SmallToThePast
    }

    predicate FutureLeaning() {
      this == ToTheFuture || this == SmallToTheFuture
    }

    /** The policies that always pick a candidate. */
    predicate Small() {
      this == SmallToThePast || this == SmallToTheFuture || this == SmallestAdjustment
    }
  }

  /** The old value lies strictly after the first candidate and strictly before the second. */
  predicate Brackets(firstHour: DateTime, secondHour: DateTime, oldValueUtc: DateTime) {
    firstHour.ticks < oldValueUtc.ticks && secondHour.ticks > oldValueUtc.ticks
  }

  /**
   * ReturnMostLikelyDateTime. A past-leaning policy takes the first
   * candidate and a future-leaning one the second when the old value lies
   * between them; SmallestAdjustment takes the candidate nearer to the old
   * value (the second on a tie); failing that, SmallToThePast falls back to
   * the second candidate and SmallToTheFuture to the first; everything else
   * has no opinion.
   */
  function ReturnMostLikelyDateTime(firstHour: DateTime, secondHour: DateTime, oldValueUtc: DateTime,
                                    assumption: TimeModificationAssumption): (r: Nullable<DateTime>)
    // no third value is ever produced
    ensures r.Null? || r.value == firstHour || r.value == secondHour
    // no opinion exactly for None, and for the strict policies when the old value is not bracketed
    ensures r.Null? <==> (|| assumption == None
                          || ((assumption == ToThePast || assumption == ToTheFuture)
                              && !Brackets(firstHour, secondHour, oldValueUtc)))
    // a bracketed old value: the first candidate for the past, the second for the future
    ensures Brackets(firstHour, secondHour, oldValueUtc) && assumption.PastLeaning() ==> r == HasValue(firstHour)
    ensures Brackets(firstHour, secondHour, oldValueUtc) && assumption.FutureLeaning() ==> r == HasValue(secondHour)
    // otherwise the "small" policies fall back to the other candidate
    ensures !Brackets(firstHour, secondHour, oldValueUtc) && assumption == SmallToThePast ==> r == HasValue(secondHour)
    ensures !Brackets(firstHour, secondHour, oldValueUtc) && assumption == SmallToTheFuture ==> r == HasValue(firstHour)
    // SmallestAdjustment: the first candidate exactly when it is strictly nearer to the old value
    ensures assumption == SmallestAdjustment ==>
      r == HasValue(if Distance(oldValueUtc, firstHour) < Distance(oldValueUtc, secondHour) then firstHour else secondHour)
  {
    var bracketed := firstHour.ticks < oldValueUtc.ticks && secondHour.ticks > oldValueUtc.ticks;
    // the first switch answers early...
    var early := match assumption
      case ToThePast | SmallToThePast => if bracketed then HasValue(firstHour) else Null
      case ToTheFuture | SmallToTheFuture => if bracketed then HasValue(secondHour) else Null
      case SmallestAdjustment =>
        if Distance(oldValueUtc, firstHour) < Distance(oldValueUtc, secondHour) then HasValue(firstHour)
        else HasValue(secondHour)
      case None => Null;
    if early.HasValue? then early
    // ...or the second switch gives the fallbacks
    else match assumption
      case SmallToThePast => HasValue(secondHour)
      case SmallToTheFuture => HasValue(firstHour)
      case _ => Null
  }

  /**
   * The strict policies keep the direction they are named after: a value
   * picked by ToThePast lies before the old value, one picked by
   * ToTheFuture after it.
   */
  lemma StrictPoliciesKeepDirection(firstHour: DateTime, secondHour: DateTime, oldValueUtc: DateTime)
    ensures var r := ReturnMostLikelyDateTime(firstHour, secondHour, oldValueUtc, ToThePast);
      r.HasValue? ==> r.value.ticks < oldValueUtc.ticks
    ensures var r := ReturnMostLikelyDateTime(firstHour, secondHour, oldValueUtc, ToTheFuture);
      r.HasValue? ==> r.value.ticks > oldValueUtc.ticks
  {
  }

  /**
   * SmallestAdjustment always answers, with a candidate no farther from the
   * old value than the other one; on a tie it answers with the second.
   */
  lemma SmallestAdjustmentIsNearest(firstHour: DateTime, secondHour: DateTime, oldValueUtc: DateTime)
    ensures var r := ReturnMostLikelyDateTime(firstHour, secondHour, oldValueUtc, SmallestAdjustment);
      && r.HasValue?
      && Distance(oldValueUtc, r.value) <= Distance(oldValueUtc, firstHour)
      && Distance(oldValueUtc, r.value) <= Distance(oldValueUtc, secondHour)
      && (Distance(oldValueUtc, firstHour) == Distance(oldValueUtc, secondHour) ==> r.value == secondHour)
  {
  }

  /**
   * When the first candidate is not before the second, the old value can
   * never be bracketed, so exactly the "small" policies give an answer.
   */
  lemma UnorderedCandidatesNeverBracket(firstHour: DateTime, secondHour: DateTime, oldValueUtc: DateTime,
                                        assumption: TimeModificationAssumption)
    requires firstHour.ticks >= secondHour.ticks
    ensures !Brackets(firstHour, secondHour, oldValueUtc)
    ensures ReturnMostLikelyDateTime(firstHour, secondHour, oldValueUtc, assumption).HasValue? <==> assumption.Small()
  {
  }

  /**
   * With the candidates in order, the "small" policies move the value as
   * little as they can in their direction: SmallToThePast answers with the
   * later candidate unless only the earlier one lies before the old value,
   * and SmallToTheFuture with the earlier one unless only the later one
   * lies after it.
   */
  lemma SmallPoliciesStayClose(firstHour: DateTime, secondHour: DateTime, oldValueUtc: DateTime)
    requires firstHour.ticks < secondHour.ticks
    ensures var r := ReturnMostLikelyDateTime(firstHour, secondHour, oldValueUtc, SmallToThePast);
      r.HasValue? && (r.value == firstHour <==> firstHour.ticks < oldValueUtc.ticks < secondHour.ticks)
    ensures var r := ReturnMostLikelyDateTime(firstHour, secondHour, oldValueUtc, SmallToTheFuture);
      r.HasValue? && (r.value == secondHour <==> firstHour.ticks < oldValueUtc.ticks < secondHour.ticks)
  {
  }
}
