/** The optional value used for `T | undefined` in the TypeScript source. */
module Wrappers {

  datatype Option<+T> = None | Some(value: T)
}
