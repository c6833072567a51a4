/** Values that stand for JavaScript's `undefined`/`null` results and for
    exceptions thrown by the runtime. */
module Outcomes {

  /** An optional value: `None` plays the part of `undefined` or `null`. */
  datatype Option<+T> = None | Some(value: T)

  /** The two runtime exceptions the modelled code can raise. `TypeError`
      comes from reading a property of `undefined` (a missing neighbour row,
      or `.vector` of a vacated slot); `RangeError` from a `DataView` read past
      the end of the buffer. */
  datatype Error = TypeError | RangeError

  /** The outcome of an operation that may throw; usable with `:-`, which
      passes an exception on to the caller as JavaScript does. */
  datatype Result<+T> = Ok(value: T) | Fail(error: Error) {
    predicate IsFailure() {
      Fail?
    }

    function PropagateFailure<U>(): Result<U>
      requires Fail?
    {
      Fail(error)
    }

    function Extract(): T
      requires Ok?
    {
      value
    }
  }
}
