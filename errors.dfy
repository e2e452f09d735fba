/** Failure values shared by the wrangling stages. */
module Errors {

  datatype Option<T> = None | Some(value: T)

  /** The exceptions the wrangling functions let escape to their caller. */
  datatype Error =
    | KeyError(key: string)         // a column that the table does not have
    | IndexError(index: nat)        // `new_cols[idx]` past the end of the list
    | NotString(column: string)     // `.str.contains` met a cell that is not text
    | NotInteger(column: string)    // `astype(int)` met a cell that is not an integer

  /** The value of a stage that builds a new table, or why it could not. */
  datatype Result<T> = Ok(value: T) | Err(error: Error)

  /** How a stage that updates the table in place ended. */
  datatype Outcome = Done | Failed(error: Error)
}
