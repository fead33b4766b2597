/**
 * Small value wrappers shared by the whole model: an optional value, a
 * result that is either a value or an error, and the "N/A" sentinel the
 * preprocessing script writes into a column when a field group could not
 * be computed.
 */
module Outcomes {

  /** A value that may be absent (Python's `None`). */
  datatype Option<+T> = None | Some(value: T)

  /** Either a computed value or the error that stopped the computation. */
  datatype Result<+T, +E> = Ok(value: T) | Err(error: E)

  /**
   * A column entry that is either a real value or the "N/A" sentinel.
   * The script mixes the string "N/A" with booleans and integers in the
   * same column; this datatype keeps the two apart.
   */
  datatype Field<+T> = NA | Val(value: T)

  /** The sentinel the script writes into string-typed columns. */
  const NotAvailable: string := "N/A"
}
