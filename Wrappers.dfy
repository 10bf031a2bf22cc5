/** The optional-value datatype shared by the other modules. */
module Wrappers {

  /** A value that may be absent: JavaScript's `undefined`/`null` or a failed lookup. */
  datatype Option<+T> = None | Some(value: T)
}
