/** Optional values: `None` stands for Java's `null` wherever the source returns or stores it. */
module Wrappers {

  datatype Option<+T> = None | Some(value: T)
}
