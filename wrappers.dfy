/** The optional value that the scripts express with `None` or a missing output file. */
module Wrappers {
  datatype Option<+T> = None | Some(value: T)
}
