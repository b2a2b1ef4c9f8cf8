/** Types that several components share. */
module Basics {

  /** The model of a pointer that may be NULL. */
  datatype Option<T> = None | Some(value: T)

  type Byte = x: int | 0 <= x < 256
}
