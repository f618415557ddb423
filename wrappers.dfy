/** Option and Result, and the Python exceptions that escape the modelled code. */
module Wrappers {

  datatype Option<+T> = None | Some(value: T)

  /** The exceptions the modelled Python code can raise and not catch. */
  datatype Error =
    | IndexError            // a list index past the end
    | ValueError            // int() of a malformed numeral, or a tuple unpack of the wrong length
    | KeyError(key: string) // a dictionary or user-database miss

  /** A value, or the exception that ended the computation. Usable with `:-`. */
  datatype Result<+T> = Success(value: T) | Failure(error: Error) {

    predicate IsFailure() {
      Failure?
    }

    function PropagateFailure<U>(): Result<U>
      requires Failure?
    {
      Failure(error)
    }

    function Extract(): T
      requires Success?
    {
      value
    }
  }

  /** Python's `xs[i]` for a non-negative index. */
  function At<T>(xs: seq<T>, i: nat): Result<T>
  {
    if i < |xs| then Success(xs[i]) else Failure(IndexError)
  }
}
