/** The `Option` type that stands for Rust's `Option`, with the members Dafny
    needs to propagate a `None` through `:-` exactly like Rust's `?` operator. */
module Wrappers {

  datatype Option<+T> = None | Some(value: T) {

    /** `None` is the failure that `:-` propagates. */
    predicate IsFailure() {
      None?
    }

    function PropagateFailure<U>(): Option<U> {
      None
    }

    function Extract(): T
      requires Some?
    {
      value
    }
  }
}
