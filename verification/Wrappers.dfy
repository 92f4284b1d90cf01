/** Result types shared by the model. */
module Wrappers {
  /** A value that may be absent: a missing row or file, or the outcome of a decoder that throws. */
  datatype Option<+T> = None | Some(value: T) {
    predicate IsFailure() {
      None?
    }

    function PropagateFailure<U>(): Option<U>
      requires None?
    {
      None
    }

    function Extract(): T
      requires Some?
    {
      value
    }
  }
}
