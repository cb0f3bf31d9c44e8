/** Integer types of fixed width, as the C sources use them, and the error numbers they return. */
module Bytes {
  type byte = x: int | 0 <= x < 0x100
  type u32 = x: int | 0 <= x < 0x1_0000_0000
  type u64 = x: int | 0 <= x < 0x1_0000_0000_0000_0000

  const U32_MAX: int := 0xFFFF_FFFF
  const U32_SPAN: int := 0x1_0000_0000
  const U64_SPAN: int := 0x1_0000_0000_0000_0000

  /** The most bytes the driver takes for one transfer. */
  const MAX_PAYLOAD_LIMIT: u32 := 64 * 1024 * 1024

  datatype Option<+T> = None | Some(value: T)

  function Min(a: int, b: int): int {
    if a < b then a else b
  }

  // Linux error numbers; functions return them negated.
  const EIO: int := 5
  const E2BIG: int := 7
  const EAGAIN: int := 11
  const EBUSY: int := 16
  const ENODEV: int := 19
  const EINVAL: int := 22
  const EOVERFLOW: int := 75
}
