/** Failure-compatible wrappers shared by every module of the model.
    `None` stands for JavaScript's `undefined`/`null`; `Failure` stands for an
    exception the source throws (a `logger.error(..., 'EXCEPTION')` or a
    `TypeError` from reading a property of `undefined`). */
module Wrappers {

  datatype Option<+T> = None | Some(value: T) {
    function GetOr(default: T): T {
      match this
      case Some(v) => v
      case None => default
    }
  }

  datatype Result<+R, +E> = Success(value: R) | Failure(error: E) {
    predicate IsFailure() {
      Failure?
    }

    function PropagateFailure<U>(): Result<U, E>
      requires Failure?
    {
      Failure(error)
    }

    function Extract(): R
      requires Success?
    {
      value
    }
  }

  /** A value that JavaScript code accepts either alone or as an array, or
      not at all: a decoded XML element that occurs once or several times, a
      filter given as one extension or a list of them. */
  datatype Field<T> = Absent | One(item: T) | Many(items: seq<T>)
}
