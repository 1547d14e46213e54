/** Small value types shared by the sign-in model. */
module Common {

  /** A value of Swift's `UInt8`, the element type of `Data`. */
  type Byte = b: int | 0 <= b < 256

  /** Swift's `Optional`. */
  datatype Option<+T> = None | Some(value: T)
}
