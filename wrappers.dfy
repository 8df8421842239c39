/** The optional value used for codec calls that may raise and for the
    search outcome that may be missing. */
module Wrappers {

  datatype Option<+T> = None | Some(value: T)

}
