/** Failure-compatible wrappers and the error kinds the query layer reports. */
module Results {

  /** A value that may be missing; usable with `:-`. */
  datatype Option<+T> = None | Some(value: T) {
    predicate IsFailure() { None? }

    function PropagateFailure<U>(): Option<U>
      requires None?
    {
      None
    }

    function Extract(): T
      requires Some?
    {
      value
    }
  }

  /** The caller errors that are caught before any statement reaches the connection. */
  datatype Error =
    | EmptyPayload                  // insert or update called with no fields
    | InvalidColumn(column: string) // a column name outside the whitelist

  datatype Result<+T> = Ok(value: T) | Err(error: Error)
}
