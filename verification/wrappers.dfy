/** Optional values shared by the other modules. */
module Wrappers {

  /** `None` stands for an absent value: a missing match, or JavaScript's `NaN`. */
  datatype Option<+T> = None | Some(value: T)
}
