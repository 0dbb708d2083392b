/**
 Fixed-width unsigned integers of the C program (`uint8_t`, `uint16_t`,
 `uint32_t`) as subset types of `int`, with the wrap-around arithmetic that C
 performs on them written out explicitly.
 */
module Ints {

  const Two8: int := 0x100
  const Two16: int := 0x1_0000
  const Two32: int := 0x1_0000_0000

  type u8 = x: int | 0 <= x < Two8
  type u16 = x: int | 0 <= x < Two16
  type u32 = x: int | 0 <= x < Two32

  /** `a + b` on `uint16_t`: the sum reduced modulo 2^16. */
  function Add16(a: u16, b: u16): (r: u16)
    ensures a + b < Two16 ==> r == a + b
    ensures a + b >= Two16 ==> r == a + b - Two16
  {
    (a + b) % Two16
  }

  /** `a - b` on `uint32_t`: the difference reduced modulo 2^32, never negative. */
  function Sub32(a: u32, b: u32): (r: u32)
    ensures b <= a ==> r == a - b
    ensures a < b ==> r == a - b + Two32
  {
    (a - b) % Two32
  }

  /** `x++` on a `uint8_t`. */
  function Inc8(x: u8): (r: u8)
    ensures x < Two8 - 1 ==> r == x + 1
    ensures x == Two8 - 1 ==> r == 0
  {
    (x + 1) % Two8
  }

  /** `x--` on a `uint8_t`. */
  function Dec8(x: u8): (r: u8)
    ensures 0 < x ==> r == x - 1
    ensures x == 0 ==> r == Two8 - 1
  {
    (x - 1) % Two8
  }
}
