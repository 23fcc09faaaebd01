/** The optional-value datatype used for operations that can fail. */
module Wrappers {

  /** A value that may be absent; `None` stands for a failed operation. */
  datatype Option<+T> = None | Some(value: T)
}
