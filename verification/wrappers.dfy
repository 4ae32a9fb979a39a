/** Optional values, standing in for Java's nullable references. */
module Wrappers {

  /** `None` plays the role of a Java `null`. */
  datatype Option<+T> = None | Some(value: T)
}
