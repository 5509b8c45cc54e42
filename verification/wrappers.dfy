/** A value that may be missing, standing in for JavaScript's `null` and
    `undefined`. */
module Wrappers {

  datatype Option<T> = None | Some(value: T)
}
