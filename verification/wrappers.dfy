/** The optional-value datatype used for the driver's error returns. */
module Wrappers {

  /** `None` stands for a Python `False` error return or for a poll that never succeeded. */
  datatype Option<+T> = None | Some(value: T)
}
