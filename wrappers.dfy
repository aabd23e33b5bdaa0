/** Option and Result values, the error kinds the analysis script can raise,
    and the cell type of the course table. */
module Wrappers {

  datatype Option<+T> = None | Some(value: T)

  /** The Python exceptions the modelled code can raise. */
  datatype Error =
    | ValueError   // int() on a malformed string, or a wrong number of values to unpack
    | TypeError    // `'+' in x` on a cell that is not a string
    | KeyError     // DataFrame.drop of a row label that does not exist

  datatype Result<+T> = Success(value: T) | Failure(error: Error)

  /** One cell of the spreadsheet: missing (NaN), a string, or a number.
      Numbers are integers in this model (ages, fees and durations are whole numbers). */
  datatype Cell = Missing | Text(s: string) | Number(n: int)
}
