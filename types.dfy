/** Fixed-width machine integers of the C++ source, written out as newtypes so
    that widths and wrap-around are explicit. */
module Types {

  newtype byte = b: int | 0 <= b < 0x100

  /** uint32_t and unsigned */
  newtype u32 = x: int | 0 <= x < 0x1_0000_0000

  /** uint64_t */
  newtype u64 = x: int | 0 <= x < 0x1_0000_0000_0000_0000

  /** A block number of the block manager (a uint64_t). */
  type BlockAddress = u64
}
