/** The optional values of the model: Kotlin's nullable types `T?` become `Option<T>`. */
module Wrappers {

  /** `None` stands for Kotlin's `null`, `Some(v)` for a non-null `v`. */
  datatype Option<+T> = None | Some(value: T)
}
