/** Options, used for JavaScript's `undefined` and for a step that throws. */
module Wrappers {

  datatype Option<+T> = None | Some(value: T)
}
