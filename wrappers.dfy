/** The optional value used for JavaScript's `undefined` results and for
    foreign calls that may fail. */
module Wrappers {
  datatype Option<+T> = None | Some(value: T)
}
