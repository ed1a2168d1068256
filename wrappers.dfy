/** The optional value used where the source answers `undefined`, `null` or "nothing to do". */
module Wrappers {
  datatype Option<T> = None | Some(value: T)
}
