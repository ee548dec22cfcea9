/** A C pointer that may be NULL, as an optional value. */
module Opt {

  datatype Option<+T> = None | Some(value: T)
}
