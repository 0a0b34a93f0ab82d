/**
 * UtcHandler, the handler for values that are kept in UTC throughout:
 * there is no daylight saving time, so every conversion is the identity
 * and no local time is ever ambiguous.
 */
module UtcHandlers {
  import opened Time
  import opened TieBreak

  /** The kinds of handler the application can be configured with. */
  datatype TimeZoneHandlerType = UtcHandler | LocalZoneHandler

  /** The UTC handler; it has no state. */
  datatype UtcHandler = UtcHandler {

    function HandlerType(): (t: TimeZoneHandlerType)
      ensures t.UtcHandler?
    {
      TimeZoneHandlerType.UtcHandler
    }

    function Description(): (s: string)
      ensures |s| > 0
    {
      "Unique UTC datetime"
    }

    function ConvertFromUtcToLocal(utcDateTime: DateTime): DateTime {
      utcDateTime
    }

    function ConvertFromLocalToUtc(localDateTime: DateTime): DateTime {
      localDateTime
    }

    /** The new value as it is: with no ambiguity there is nothing to choose between. */
    function ConvertFromLocalToMostProbableUtc(newLocalDateTime: DateTime, oldUtcDateTime: DateTime,
                                               assumption: TimeModificationAssumption): DateTime {
      newLocalDateTime
    }

    predicate IsAmbiguous(localDateTime: DateTime) {
      false
    }

    predicate IsDaylightSavingTime(localDateTime: DateTime) {
      false
    }
  }

  /** Converting to local time and back, or to UTC and back, returns the input, kind included. */
  lemma RoundTrips(handler: UtcHandler, d: DateTime)
    ensures handler.ConvertFromLocalToUtc(handler.ConvertFromUtcToLocal(d)) == d
    ensures handler.ConvertFromUtcToLocal(handler.ConvertFromLocalToUtc(d)) == d
  {
  }

  /**
   * The handler meets the resolvers' contract for unambiguous times: no
   * time is ambiguous or in daylight time, and the most probable UTC value
   * is the plain conversion, whatever the old value and the policy.
   */
  lemma ResolvesAsUnambiguous(handler: UtcHandler, newLocal: DateTime, oldUtc: DateTime,
                              assumption: TimeModificationAssumption)
    ensures !handler.IsAmbiguous(newLocal) && !handler.IsDaylightSavingTime(newLocal)
    ensures handler.ConvertFromLocalToMostProbableUtc(newLocal, oldUtc, assumption) == handler.ConvertFromLocalToUtc(newLocal)
    ensures handler.ConvertFromLocalToMostProbableUtc(newLocal, oldUtc, assumption) == newLocal
  {
  }
}
