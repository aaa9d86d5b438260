/** The optional-value datatype the rest of the model uses for JavaScript's `null`. */
module Wrappers {

  /** `None` stands for `null`; `Some(v)` for a present value. */
  datatype Option<+T> = None | Some(value: T)
}
