/** Option and Result: absent JavaScript values and thrown errors, as plain data. */
module Wrappers {

  /** A value that may be absent: `None` stands for `undefined`, `null` or `NaN`,
      whichever the JavaScript code would have produced. */
  datatype Option<+T> = None | Some(value: T) {

    /** The value, or `fallback` when there is none (JavaScript's `x || fallback`
        for values that are never falsy when present). */
    function GetOr(fallback: T): T {
      match this
      case Some(v) => v
      case None => fallback
    }
  }

  /** The outcome of a JavaScript computation that may throw: `Fail` carries the
      name of the exception. Usable with `:-`. */
  datatype Result<+T> = Ok(value: T) | Fail(error: string) {

    predicate IsFailure() {
      Fail?
    }

    function PropagateFailure<U>(): Result<U>
      requires Fail?
    {
      Fail(error)
    }

    function Extract(): T
      requires Ok?
    {
      value
    }
  }
}
