/** The optional value used for TypeScript's `field?: T` and `T | undefined`. */
module Wrappers {

  datatype Option<+T> = None | Some(value: T)
}
