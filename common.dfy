/** Failure-carrying values shared by the Novan modules, and the exceptions
    the Python code raises, as values. */
module Common {

  datatype Option<+T> = None | Some(value: T)

  datatype Result<+T, +E> = Success(value: T) | Failure(error: E)

  /** The outcome of an operation that returns nothing or raises. */
  datatype Outcome<+E> = Pass | Fail(error: E)

  /** The Python exceptions raised by the modelled code. */
  datatype Error =
    | ValueError(message: string)
    | KeyError(key: char)
    | NotImplementedError
}
