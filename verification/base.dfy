/** Small shared vocabulary: optional values and Go's `byte`. */
module Base {

  datatype Option<+T> = None | Some(value: T)

  /** Go's `byte` (uint8). */
  newtype Byte = x: int | 0 <= x < 256
}
