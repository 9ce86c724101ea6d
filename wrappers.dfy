/** Small value wrappers shared by every module of the model. */
module Wrappers {

  /** A value that may be missing (a JavaScript `null` or a failed lookup). */
  datatype Option<+T> = None | Some(value: T)
}
