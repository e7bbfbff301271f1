/** Failure-compatible datatypes used by every part of the share-link model. */
module Wrappers {

  /** An optional value: JavaScript's `undefined` / `null` absence is `None`. */
  datatype Option<+T> = None | Some(value: T) {

    predicate IsFailure() {
      None?
    }

    function PropagateFailure<U>(): Option<U>
      requires None?
    {
      None
    }

    function Extract(): T
      requires Some?
    {
      value
    }
  }

  /** The outcome of an operation that may throw: `Failure` carries what was thrown. */
  datatype Result<+T, +E> = Success(value: T) | Failure(error: E) {

    predicate IsFailure() {
      Failure?
    }

    function PropagateFailure<U>(): Result<U, E>
      requires Failure?
    {
      Failure(error)
    }

    function Extract(): T
      requires Success?
    {
      value
    }
  }
}

/** What a JavaScript `throw` carries, reduced to the two parts the program looks at. */
module Errors {

  /** An exception object: its constructor `name` and its `message`. */
  datatype Exception = Exception(name: string, message: string)

  /** `new Error(message)` */
  function PlainError(message: string): Exception {
    Exception("Error", message)
  }
}
