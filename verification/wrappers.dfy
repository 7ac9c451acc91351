/** The optional-value datatype that stands for the Go pointer fields
    (`*int32`) and for the pointer receivers of the validators. */
module Wrappers {

  /** `None` is a nil pointer, `Some(v)` a pointer to `v`. */
  datatype Option<+T> = None | Some(value: T)
}
