/** The optional value used for JavaScript's `undefined` results and for thrown exceptions. */
module Wrappers {

  datatype Option<+T> = None | Some(value: T)
}
