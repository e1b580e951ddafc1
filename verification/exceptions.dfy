/** The exceptions the library raises, and a failure-compatible Result type
    that every throwing operation of the model returns instead of throwing. */
module Exceptions {

  /** One variant per exception class the modelled code throws. */
  datatype Exception =
    | ValidationException(message: string)
    | ImmutableException(message: string)
    | ImmutableViolationException(message: string)
    | InvalidArgumentException(message: string)
    | BadMethodCallException(message: string)
    | RepositoryAppendNotPossibleException(message: string)
    | RepositoryPrependNotPossibleException(message: string)
    | DivisionByZeroError(message: string)
    | TypeError(message: string)
    /** An exception whose class the caller names (throw_if / throw_if_not). */
    | Thrown(className: string, message: string)

  /** Either the operation's value, or the exception it throws. */
  datatype Result<+T> = Ok(value: T) | Throw(exception: Exception) {

    predicate IsFailure() {
      Throw?
    }

    function PropagateFailure<U>(): Result<U>
      requires Throw?
    {
      Throw(exception)
    }

    function Extract(): T
      requires Ok?
    {
      value
    }
  }

  /** Ok(()) when `condition` holds, otherwise the given exception. */
  function Require(condition: bool, e: Exception): (r: Result<()>)
    ensures r.Ok? <==> condition
    ensures r.Throw? ==> r.exception == e
  {
    if condition then Ok(()) else Throw(e)
  }
}
