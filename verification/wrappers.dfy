/** Failure-compatible optional values, used for the loader's parse steps. */
module Wrappers {

  /** A value that may be absent; `None` stands for a parse failure. */
  datatype Option<+T> = None | Some(value: T)
}
