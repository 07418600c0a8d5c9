/** The optional-value datatype used for every operation that can fail. */
module Wrappers {

  /** `None` stands for the source's error return or panic; `Some` carries the result. */
  datatype Option<+T> = None | Some(value: T)
}
