/** The exceptions the service and the validator throw, one constructor per message template. */
module Errors {

  datatype Error =
      // IllegalArgumentException raised by the validator
    | MeterIdNull
    | MeterIdNotPositive
    | MeterNotFound(meterId: int)
    | YearNull
    | YearNegative
    | YearInFuture
    | MonthNull
    | MonthOutOfRange
    | EnergyNull
    | EnergyNegative
    | ReadingNull
    | ReadingIdNull
    | ReadingIdNotPositive
    | ReadingIdNotFound(readingId: int)
      // IllegalArgumentException raised by the service when a reading is saved twice
    | ReadingAlreadyExists(meterId: int, year: int, monthName: string)
      // ResourceNotFoundException raised by the service's read operations
    | ReadingsNotFound(meterId: int, year: int)
    | ReadingNotFound(meterId: int, year: int, monthName: string)
      // exceptions raised by library code the service calls
    | DuplicateMonthKey(monthName: string)  // IllegalStateException from Collectors.toMap
    | InvalidMonth(month: int)              // DateTimeException from Month.of
    | NonUniqueResult                       // IncorrectResultSizeDataAccessException from a single-row query
    | NoReadingWithId(readingId: int)       // EmptyResultDataAccessException from deleteById
  {
    /** Thrown as `IllegalArgumentException` (answered with 400 Bad Request). */
    predicate IsIllegalArgument() {
      !IsNotFound() && !IsUnexpected()
    }

    /** Thrown as `ResourceNotFoundException` (answered with 404 Not Found). */
    predicate IsNotFound() {
      ReadingsNotFound? || ReadingNotFound?
    }

    /** Any other runtime exception (answered with 500 and a generic message). */
    predicate IsUnexpected() {
      DuplicateMonthKey? || InvalidMonth? || NonUniqueResult? || NoReadingWithId?
    }

    /** The message template of the exception; `%d` and `%s` are filled from the fields. */
    function Template(): string {
      match this
      case MeterIdNull => "Meter id must not be null"
      case MeterIdNotPositive => "Meter id must be greater than 0"
      case MeterNotFound(_) => "Meter with id %d does not exist"
      case YearNull => "Year must not be null"
      case YearNegative => "Year must be greater than or equal 0"
      case YearInFuture => "Year must not be in the future"
      case MonthNull => "Month must not be null"
      case MonthOutOfRange => "Month must be between 1 and 12"
      case EnergyNull => "Energy consumed must not be null"
      case EnergyNegative => "Energy consumed must greater or equals 0"
      case ReadingNull => "Meter reading must not be null"
      case ReadingIdNull => "Meter reading id must not be null"
      case ReadingIdNotPositive => "Meter reading id must be greater than 0"
      case ReadingIdNotFound(_) => "Meter reading with id %d does not exist"
      case ReadingAlreadyExists(_, _, _) => "Meter reading for meter id %d, year %d and month %s already exists"
      case ReadingsNotFound(_, _) => "Meter readings for meter id %d and year %d does not exist"
      case ReadingNotFound(_, _, _) => "Meter reading for meter id %d, year %d and month %s does not exist"
      case DuplicateMonthKey(_) => "Duplicate key %s"
      case InvalidMonth(_) => "Invalid value for MonthOfYear: %d"
      case NonUniqueResult => "query did not return a unique result"
      case NoReadingWithId(_) => "No entity with id %d exists"
    }
  }
}
