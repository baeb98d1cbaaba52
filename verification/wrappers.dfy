/** Failure-compatible wrappers shared by the whole model.

    The program aborts (panics) on every structural violation it detects;
    here each abort is a `Fatal` value carrying the reason, so that a caller
    can see which inputs abort and which do not.
 */
module Wrappers {

  /** A value that may be absent (Rust's `Option`). */
  datatype Option<+T> = None | Some(value: T)

  /** Why a run aborts. */
  datatype Failure =
    | Duplicate(tag: string)     // more than one child named `tag` where at most one is allowed
    | MissingValues              // an asset without a `Values` child
    | MissingText(tag: string)   // a `tag` child whose text the program insists on is absent
    | MissingDefaults            // no DefaultValues node was registered before it was needed

  datatype Result<+T> = Ok(value: T) | Fatal(error: Failure) {
    predicate IsFailure() {
      Fatal?
    }

    function PropagateFailure<U>(): Result<U>
      requires Fatal?
    {
      Fatal(error)
    }

    function Extract(): T
      requires Ok?
    {
      value
    }
  }
}
