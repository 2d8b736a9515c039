/** The optional-value datatype used for every nullable field of the model. */
module Wrappers {

  /** `None` stands for the source's `null`. */
  datatype Option<+T> = None | Some(value: T)
}
