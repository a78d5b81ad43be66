/** The optional-value type shared by the modules of this model. */
module Wrappers {

  /** `None` stands for a key that is missing from a table. */
  datatype Option<+T> = None | Some(value: T) {

    /** The value, or `default` when there is none (Python's `dict.get(key, default)`). */
    function GetOr(default: T): T {
      match this
      case Some(v) => v
      case None => default
    }
  }
}
