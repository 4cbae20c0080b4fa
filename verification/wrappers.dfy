/** The optional value used where the C++ code holds a possibly-null pointer. */
module Wrappers {

  /** `None` stands for a null pointer, `Some(v)` for a pointer to `v`. */
  datatype Option<+T> = None | Some(value: T)
}
