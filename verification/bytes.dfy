/** Fixed-width unsigned integers of the C and C++ sources. */
module Bytes {
  newtype uint8 = x: int | 0 <= x < 0x100

  newtype uint64 = x: int | 0 <= x < 0x1_0000_0000_0000_0000

  /** A byte string (`const char*` with a length, `std::vector<uint8_t>`). */
  type Bytes = seq<uint8>
}
