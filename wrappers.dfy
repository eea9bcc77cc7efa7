/** Small failure-carrying datatype shared by the modules of the chat room model. */
module Wrappers {

  /** A value that may be missing: Python's `dict.get` miss, an unreadable file, an HTTP error. */
  datatype Option<+T> = None | Some(value: T)
}
