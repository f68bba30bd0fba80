/** The optional value shared by the rest of the model. */
module Wrappers {

  /** A value that may be absent: JavaScript's `undefined`/`null` for a field or an argument. */
  datatype Option<+T> = None | Some(value: T)
}
