/** Small helper datatypes shared by the other modules. */
module Wrappers {

  /** A value that may be absent: JavaScript's `undefined`/`null` made explicit. */
  datatype Option<+T> = None | Some(value: T)
}
