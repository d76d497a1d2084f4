/** The ingester's error enum (program_ingester/src/errors.rs). */
module Errors {

  /** chrono's `format::ParseErrorKind`: why a timestamp text was refused. */
  datatype ParseErrorKind =
    | OutOfRange
    | Impossible
    | NotEnough
    | Invalid
    | TooShort
    | TooLong
    | BadFormat

  /**
   * `ProgramIngesterError`. `IoError` is raised only by the line reader,
   * which is not part of this model; the model never produces it.
   */
  datatype IngesterError =
    | InvalidProgramInput(message: string)
    | InvalidTimestamp(source: ParseErrorKind)
    | IoError(reason: string)
}
