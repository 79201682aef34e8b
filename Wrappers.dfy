/** Java's nullable references to values, as a datatype. */
module Wrappers {

  /** `None` stands for Java's `null`. */
  datatype Option<+T> = None | Some(value: T)
}
