/** The optional-value type shared by the other modules. */
module Wrappers {

  /** A value that may be absent, as a JavaScript `null` is. */
  datatype Option<T> = None | Some(value: T)
}
