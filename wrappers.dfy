/** An optional value: JavaScript's `undefined` (or an absent property) next to a present one. */
module Wrappers {

  datatype Option<+T> = None | Some(value: T)
}
