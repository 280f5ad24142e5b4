/** Fixed-width integers and byte buffers shared by the modelled Swift modules. */
module Primitives {

  /** An unsigned 8-bit value, the element of a `Data` or `ValueBoxKey` buffer. */
  newtype byte = x: int | 0 <= x < 0x100

  /** A byte buffer (`Data`, `MemoryBuffer`, `ReadBuffer`). */
  type Bytes = seq<byte>

  /** Swift's `Int32`. */
  newtype int32 = x: int | -0x8000_0000 <= x < 0x8000_0000

  /** Swift's `Int64`. */
  newtype int64 = x: int | -0x8000_0000_0000_0000 <= x < 0x8000_0000_0000_0000
}
