/** The failure-compatible Option type used by the parsers of this model. */
module Wrappers {

  /** `None` stands for the ValueError a Python conversion raises. */
  datatype Option<+T> = None | Some(value: T) {

    predicate IsFailure() {
      None?
    }

    function PropagateFailure<U>(): Option<U>
      requires None?
    {
      None
    }

    function Extract(): T
      requires Some?
    {
      value
    }
  }
}
