/** The optional-value datatype used for settings and parameters that may be absent. */
module Wrappers {

  /** `None` stands for a value that JavaScript would hold as `undefined` or `null`. */
  datatype Option<+T> = None | Some(value: T)
}
