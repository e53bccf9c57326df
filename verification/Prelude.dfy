/** Types shared by all modules. */
module Prelude {

  datatype Option<T> = None | Some(value: T)

  type byte = x: int | 0 <= x < 256

  /** One more than the largest 64-bit number. */
  const U64: int := 0x1_0000_0000_0000_0000
}
