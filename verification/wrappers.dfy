/** The optional-value type shared by every module of the model. */
module Wrappers {

  /** A value that may be absent; `None` plays the role of a null pointer
      or of a "no match" answer. */
  datatype Option<+T> = None | Some(value: T)
}
