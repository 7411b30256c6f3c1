/** The optional value that stands for Python's `None`-or-value returns. */
module Opt {
  datatype Option<+T> = None | Some(value: T)
}
