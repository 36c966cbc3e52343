/** The missing-value convention of the model: `None` stands for a pandas NaN. */
module Wrappers {

  datatype Option<+T> = None | Some(value: T)
}
