/** What the allocators have in common. */
module Shared {

  type Byte = b: int | 0 <= b < 256

  /** Pools below this size are left to the tiny allocator. */
  const MIN_USEFUL_SIZE: int := 0x10_0000
}
