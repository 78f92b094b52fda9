/** Shared vocabulary: optional values, results, the application's exception
    kinds (app/exceptions.py) and the clock's unit. */
module Common {

  datatype Option<+T> = None | Some(value: T)

  /** The value, or `default` for None. */
  function OrElse<T>(o: Option<T>, default: T): T {
    if o.Some? then o.value else default
  }

  datatype Result<+T, +E> = Success(value: T) | Failure(error: E)

  /** The exceptions the core raises. AuthException exists in the source but
      nothing raises it, so it has no constructor here. */
  datatype Error =
    | InternalException
    | BadRequestException
    | BadMediaType
    | ConflictException

  /** A UTC instant, in microseconds since the Unix epoch (the resolution of
      Python's datetime and of PostgreSQL's timestamptz). */
  type Instant = int

  /** timedelta(minutes=15) and interval '15 minutes', in microseconds. */
  const FifteenMinutes: int := 15 * 60 * 1000000
}
