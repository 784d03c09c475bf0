/** The optional value that stands for Python's `None`-or-value returns. */
module Wrappers {

  /** `None` is Python's `None`; `Some(v)` is a present value `v`. */
  datatype Option<+T> = None | Some(value: T)
}
