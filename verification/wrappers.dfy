/** The nullable-pointer idiom of the C helpers, as a value type. */
module Wrappers {

  /** `None` stands for a NULL pointer or an absent value. */
  datatype Option<+T> = None | Some(value: T)
}
