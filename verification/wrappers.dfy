/** An optional value, usable with `:-` so that a `None` from a decoding step ends the decoding. */
module Wrappers {

  datatype Option<+T> = None | Some(value: T) {

    /** `:-` stops at `None`. */
    predicate IsFailure() {
      None?
    }

    /** A stopped decoding step yields `None` at whatever type the enclosing function returns. */
    function PropagateFailure<U>(): Option<U>
      requires None?
    {
      None
    }

    /** `:-` continues with the carried value. */
    function Extract(): T
      requires Some?
    {
      value
    }
  }
}
