/** Small helper datatypes shared by every module of the model. */
module Wrappers {

  /** A value that may be absent: the model's stand-in for a null pointer or a "not found" sentinel. */
  datatype Option<+T> = None | Some(value: T)
}
