/** The optional value used wherever the C code returns a NULL pointer or an
    `NC_OPTION(T)` whose `is_some` flag is false. */
module Wrappers {
  datatype Option<+T> = None | Some(value: T)
}
