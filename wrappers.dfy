/** Option and Result types shared by every module, and the kinds of failure the
    modelled code can end in: a .NET exception kind, or undefined behaviour in
    the C++ tool. */
module Wrappers {

  datatype Option<T> = None | Some(value: T)

  /** The ways an operation of the modelled code can fail. */
  datatype Exception =
    | InvalidOperation(message: string)
    | NullReference
    | ArgumentOutOfRange
    | IndexOutOfRange
    | ArgumentNull
    | Argument
    | DivideByZero
    | AccountNotFound
    | TransactionNotFound
    /* C++ only: a read past the end of a table, an uninitialised cell, a scan
       that never finds what it looks for */
    | UndefinedBehaviour

  datatype Result<T> = Success(value: T) | Failure(error: Exception)
  {
    predicate IsFailure() { Failure? }

    function PropagateFailure<U>(): Result<U>
      requires Failure?
    {
      Failure(error)
    }

    function Extract(): T
      requires Success?
    {
      value
    }
  }
}
