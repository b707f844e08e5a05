/** The success and failure shapes the Rust sources return. */
module Wrappers {

  /** Usable with `:-`, as `?` is on a Rust `Option`. */
  datatype Option<+T> = None | Some(value: T) {
    predicate IsFailure() { None? }

    function PropagateFailure<U>(): Option<U>
      requires None?
    {
      None
    }

    function UnwrapOr(other: T): T { if Some? then value else other }

    function Extract(): T
      requires Some?
    {
      value
    }
  }

  datatype Result<+T, +E> = Ok(value: T) | Err(error: E)
}
