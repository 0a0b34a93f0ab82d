/**
 * The .NET value types the resolvers work on: DateTime as a tick count
 * with a kind, TimeSpan as a signed tick count, nullable values and the
 * exceptions the code can raise.
 */
module Time {

  const TicksPerMillisecond: int := 10000
  const TicksPerSecond: int := 10000000
  const TicksPerMinute: int := 600000000
  const TicksPerHour: int := 36000000000
  const TicksPerDay: int := 864000000000

  /** DateTime.MaxValue.Ticks: the last tick of 31 December 9999. */
  const MaxTicks: int := 3155378975999999999

  /** The ticks a DateTime can hold; DateTime.MinValue is tick 0. */
  type Ticks = t: int | 0 <= t <= MaxTicks

  datatype DateTimeKind = Unspecified | Utc | Local

  /**
   * A DateTime. The relational operators and == of .NET compare the ticks
   * only and ignore the kind, so the model compares `.ticks` explicitly.
   */
  datatype DateTime = DateTime(ticks: Ticks, kind: DateTimeKind)

  /** A TimeSpan, as its signed number of ticks. */
  type TimeSpan = int

  /** The exceptions the modelled code can throw. */
  datatype Exception =
    | ArgumentNullException
    | ArgumentException
    | ArgumentOutOfRangeException
    | InvalidOperationException

  /** A value, or the exception that was thrown instead of returning one. */
  datatype Result<+T> = Ok(value: T) | Err(error: Exception)

  /** A C# nullable value (`DateTime?`) or a reference that may be null. */
  datatype Nullable<+T> = Null | HasValue(value: T) {
    /** The C# `??` operator. */
    function OrElse(fallback: T): T {
      if HasValue? then value else fallback
    }
  }

  predicate InTickRange(t: int) {
    0 <= t <= MaxTicks
  }

  /** `d + span`: keeps the kind, throws when it leaves the DateTime range. */
  function Add(d: DateTime, span: TimeSpan): (r: Result<DateTime>)
    ensures r.Ok? <==> InTickRange(d.ticks + span)
    ensures r.Ok? ==> r.value.ticks == d.ticks + span && r.value.kind == d.kind
    ensures r.Err? ==> r.error == ArgumentOutOfRangeException
  {
    if InTickRange(d.ticks + span) then Ok(DateTime(d.ticks + span, d.kind))
    else Err(ArgumentOutOfRangeException)
  }

  /** `d - span`. */
  function Subtract(d: DateTime, span: TimeSpan): (r: Result<DateTime>)
    ensures r.Ok? <==> InTickRange(d.ticks - span)
    ensures r.Ok? ==> r.value.ticks == d.ticks - span && r.value.kind == d.kind
    ensures r.Err? ==> r.error == ArgumentOutOfRangeException
  {
    Add(d, -span)
  }

  /** Subtracting a span undoes adding it, whenever the addition stays in range. */
  lemma SubtractUndoesAdd(d: DateTime, span: TimeSpan)
    requires InTickRange(d.ticks)
    ensures Add(d, span).Ok? ==> Subtract(Add(d, span).value, span) == Ok(d)
  {
  }

  /** `(a - b).Duration()`, in ticks. */
  function Distance(a: DateTime, b: DateTime): nat {
    if a.ticks >= b.ticks then a.ticks - b.ticks else b.ticks - a.ticks
  }
}
