/** Failure values of the search server.

    The server reports failures by throwing `std::invalid_argument` or
    `std::out_of_range`; here they are values.  A pure query returns a
    `Result`; an operation that changes the server returns the new server
    together with the error it raised, if any, because the source can throw
    AFTER it has already changed its state (see `Index.AddDocument`).
 */
module Errors {

  /** The two exception types the server throws. */
  datatype Error = InvalidArgument | OutOfRange

  datatype Option<+T> = None | Some(value: T)

  datatype Result<+T> = Ok(value: T) | Err(error: Error) {
    predicate IsFailure() {
      Err?
    }

    function PropagateFailure<U>(): Result<U>
      requires Err?
    {
      Err(error)
    }

    function Extract(): T
      requires Ok?
    {
      value
    }
  }
}
