/** The optional value used wherever the source tests `if x` or checks a length before indexing. */
module Wrappers {

  datatype Option<+T> = None | Some(value: T)
}
