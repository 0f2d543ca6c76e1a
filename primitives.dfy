/** Machine-level vocabulary shared by the rational reconstructor: Rust's
    unsigned 64-bit integer and an optional value for an operation that can
    fail (here: arithmetic that would overflow). */
module Primitives {

  /** One past the largest `u64`. */
  const TwoTo64: int := 0x1_0000_0000_0000_0000

  /** `u64::MAX`. */
  const U64Max: int := TwoTo64 - 1

  /** Rust's `u64`, as a range of mathematical integers. */
  type u64 = x: int | 0 <= x < 0x1_0000_0000_0000_0000

  datatype Option<+T> = None | Some(value: T)
}
