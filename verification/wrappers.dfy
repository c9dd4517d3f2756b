/** The optional-value datatype used throughout the model for the source's
    nullable references (`string?`, a `FirstOrDefault` that may find nothing). */
module Wrappers {

  /** `None` stands for C#'s `null`; `Some(v)` for a present value. */
  datatype Option<+T> = None | Some(value: T) {

    /** Returns the value, or `default` when there is none (C#'s `??`). */
    function GetOr(default: T): T {
      match this
      case Some(v) => v
      case None => default
    }
  }
}
