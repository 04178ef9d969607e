/** Small types shared by every module of the model. */
module Basics {

  /** The value of a computation that may have none. */
  datatype Option<+T> = None | Some(value: T)

  /** One octet. */
  type Byte = b: int | 0 <= b < 256

  /** A string of octets: a buffer, a stream, or a protobuf string. */
  type Bytes = seq<Byte>

  const TWO_31: int := 0x8000_0000
  const TWO_32: int := 0x1_0000_0000
  const TWO_63: int := 0x8000_0000_0000_0000
  const TWO_64: int := 0x1_0000_0000_0000_0000

  /** An unsigned 64-bit value: every id of the protocol. */
  type U64 = n: int | 0 <= n < 0x1_0000_0000_0000_0000

  /** A C++ int: the type of ByteSize() and of _cached_size_. */
  type Int32 = n: int | -0x8000_0000 <= n < 0x8000_0000
}
