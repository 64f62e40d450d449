/** The exceptions the core throws (CustomExceptions.InsufficientInput,
    InvalidInput and OutOfBounds), each carrying which message it was built
    with, the DateTimeParseException that escapes date parsing, and the
    result types that replace throwing and returning null. */
module Errors {

  /** The message an exception carries, one constructor per message constant
      (or literal) used by the core. A start/end date failure wraps the
      message of the date failure it caught. */
  datatype Reason =
    | InvalidDate
    | InvalidDay
    | InvalidMonth
    | InsufficientDeleteParameters
    | InvalidIndex
    | InvalidItem
    | InsufficientBmiParameters
    | HeightWeightInput
    | DateInFuture
    | InsufficientPeriodParameters
    | InvalidStartDate(cause: Reason)
    | InvalidEndDate(cause: Reason)
    | StartDateInFuture
    | PeriodEndBeforeStart
    | InvalidTime
    | InvalidHours
    | InvalidMinutes
    | RunTimeFormat      // "Invalid time format. Format is HH:MM:SS or MM:SS with integers"
    | RunTimeRange       // "Minutes must be a positive integer between 01 and 59." (also used for seconds)
    | ZeroHours          // "Hours cannot be 0. Use MM:SS instead"
    | InsufficientAppointmentParameters
    | DescriptionLength
    | InvalidIndexDelete
    | InvalidIndexSearch

  datatype Error =
    | InsufficientInput(reason: Reason)
    | InvalidInput(reason: Reason)
    | OutOfBounds(reason: Reason)
    /** java.time's unchecked DateTimeParseException, thrown by the date
        parser on a text it cannot resolve and not caught by the core. */
    | DateTimeParse

  /** A check that either returns normally or throws. */
  datatype Outcome = Pass | Fail(error: Error)

  /** A call that either returns a value or throws. */
  datatype Result<T> = Ok(value: T) | Err(error: Error)

  /** A reference that may be null. */
  datatype Option<T> = None | Some(value: T)
}
