/** Option, Result and the error kinds the wrapper raises. */
module Wrappers {

  datatype Option<+T> = None | Some(value: T)

  /** The error kinds that decide what a statement does next; message text is not modelled. */
  datatype FdwError =
    | ConcurrentUpdate  // SQLSTATE 40001: an HTTP precondition failed or the blob is gone
    | Azure             // any other storage failure
    | SchemaMismatch    // a check inside the wrapper failed

  datatype Result<+T> = Success(value: T) | Failure(error: FdwError)
}
