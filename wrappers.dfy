/** The optional value the monitor passes around where the Python code uses `None`. */
module Wrappers {

  datatype Option<+T> = None | Some(value: T)
}
