/** Types that several components share. */
module Common {
  datatype Option<T> = None | Some(value: T)

  type Byte = x: nat | x < 256
}
