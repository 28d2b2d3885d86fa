/** The optional value used wherever the Python code returns None or a match object. */
module Wrappers {

  datatype Option<+T> = None | Some(value: T)
}
