/** Optional values: the model's stand-in for Kotlin's nullable types. */
module Wrappers {

  /** `None` plays the role of Kotlin's `null`; `Some(v)` a non-null `v`. */
  datatype Option<+T> = None | Some(value: T)
}
