/** The "value or null" results of the list API. */
module Wrappers {

  /** `None` stands for the `null` that `get`, `first` and friends return. */
  datatype Option<+T> = None | Some(value: T)
}
