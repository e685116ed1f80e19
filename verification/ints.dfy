/** Fixed-width integer ranges of the C++ types the model mirrors. Dafny's
    integers are unbounded; these subset types bound them instead of wrapping. */
module Ints {

  const TwoTo32: int := 0x1_0000_0000
  const TwoTo64: int := 0x1_0000_0000_0000_0000

  /** uint32_t, AP4_UI32 and AP4_Size */
  type uint32 = x: int | 0 <= x < TwoTo32

  /** uint64_t */
  type uint64 = x: int | 0 <= x < TwoTo64

  /** int64_t */
  type int64 = x: int | -0x8000_0000_0000_0000 <= x < 0x8000_0000_0000_0000
}
