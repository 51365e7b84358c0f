/** Failure-carrying values used by the specification functions. */
module Wrappers {

  /** `None` marks an input the model leaves undefined. */
  datatype Option<+T> = None | Some(value: T)
}
