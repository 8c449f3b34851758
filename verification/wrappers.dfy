/** The conventional Some/None datatype, used wherever the source returns
    "no match" or "not recognised" instead of raising. */
module Wrappers {

  datatype Option<+T> = None | Some(value: T)
}
