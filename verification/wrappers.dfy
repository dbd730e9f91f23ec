/** Failure-compatible Option, used wherever the Python code raises an exception:
    `None` stands for "the call raises", `Some(v)` for a normal return of `v`. */
module Wrappers {

  datatype Option<+T> = None | Some(value: T) {

    predicate IsFailure() {
      None?
    }

    function PropagateFailure<U>(): Option<U>
      requires None?
    {
      None
    }

    function Extract(): T
      requires Some?
    {
      value
    }
  }
}
