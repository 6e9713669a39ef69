/** The optional values the script returns: a Python function that returns
    either a dictionary or `None`. */
module Wrappers {

  datatype Option<+T> = None | Some(value: T)
}
