/** The fixed-width C integer types that appear in the adapter's signatures,
    with the widths of a 64-bit Linux build (`unsigned long` is 64 bits,
    glibc's `useconds_t` is 32 bits). */
module CTypes {

  const U32_LIMIT: int := 0x1_0000_0000
  const U64_LIMIT: int := 0x1_0000_0000_0000_0000

  type uint8 = x: int | 0 <= x < 0x100
  type uint32 = x: int | 0 <= x < 0x1_0000_0000
  type uint64 = x: int | 0 <= x < 0x1_0000_0000_0000_0000
  type int32 = x: int | -0x8000_0000 <= x < 0x8000_0000

  /** `a * b` evaluated in `unsigned long`: the product wraps modulo 2^64. */
  function MulULong(a: uint64, b: uint64): uint64 {
    (a * b) % U64_LIMIT
  }

  /** The implicit conversion of an `unsigned long` argument to the
      `useconds_t` parameter of `usleep`: only the low 32 bits survive. */
  function ToUseconds(x: uint64): uint32 {
    x % U32_LIMIT
  }
}
