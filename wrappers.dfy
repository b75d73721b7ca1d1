/** The optional value used where the page gets `undefined`, NaN or "not found". */
module Wrappers {
  datatype Option<T> = None | Some(value: T)
}
