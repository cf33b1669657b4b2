/** The Rust scalar types that pass through the RON adapter unchanged. */
module Primitives {

  /** Rust's `i64`: RON integers and the value tree's integers share this type. */
  newtype i64 = x: int | -0x8000_0000_0000_0000 <= x < 0x8000_0000_0000_0000

  /** Rust's `f64`, kept as its 64-bit IEEE 754 pattern. The adapter copies the
      payload from one tree to the other and never computes with it, so no
      floating-point operation is modelled. */
  datatype F64 = F64(bits: bv64)
}
