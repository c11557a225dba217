/** Small wrapper types shared by the model. */
module Wrappers {

  /** An optional value: `None` when absent, `Some(value)` when present. */
  datatype Option<+T> = None | Some(value: T)
}
