/** The optional-value datatype used wherever the TypeScript source has a value that
    may be `undefined`, `null` or `NaN`. */
module Wrappers {

  /** `None` stands for a missing value (`undefined`, `null`, or a failed number parse). */
  datatype Option<+T> = None | Some(value: T) {

    /** The wrapped value, or `default` when there is none (the `x ?? d` idiom). */
    function GetOr(default: T): T {
      match this
      case Some(v) => v
      case None => default
    }
  }
}
