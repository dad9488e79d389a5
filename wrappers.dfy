/** The optional value used wherever the reader works with "a value or nothing":
    a read that may fail, a C pointer that may be NULL. */
module Wrappers {

  datatype Option<+T> = None | Some(value: T)
}
