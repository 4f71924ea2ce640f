/** Optional values, standing in for Swift optionals such as `Int?` and `[UIColor]?`. */
module Wrappers {
  datatype Option<+T> = None | Some(value: T)
}
