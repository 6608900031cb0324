/** Option and Result datatypes shared by the model. */
module Wrappers {

  /** An optional value; `None` stands for Python's `None`. */
  datatype Option<+T> = None | Some(value: T) {
    /** `x or default` for a value whose only falsy case is `None`. */
    function GetOr(default: T): T {
      match this
      case Some(v) => v
      case None => default
    }
  }

  /** The outcome of a step that can fail before producing any output. */
  datatype Result<+R, +E> = Success(value: R) | Failure(error: E)
}
