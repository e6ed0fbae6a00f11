/** The fixed-width integer types of the C++ source and the one narrowing it performs. */
module Ints {

  /** `int8_t` */
  type Int8 = x: int | -0x80 <= x < 0x80

  /** `uint8_t` */
  type Uint8 = x: int | 0 <= x < 0x100

  /** `uint32_t` */
  type Uint32 = x: int | 0 <= x < 0x1_0000_0000

  /** `int64_t` */
  type Int64 = x: int | -0x8000_0000_0000_0000 <= x < 0x8000_0000_0000_0000

  /** True when `x` fits an `int64_t`; signed overflow is undefined behaviour. */
  predicate InInt64(x: int) {
    -0x8000_0000_0000_0000 <= x < 0x8000_0000_0000_0000
  }

  /** Storing an `int` into an `int8_t`: the value modulo 256, as GCC and Clang do
      (and as C++20 prescribes). */
  function ToInt8(x: int): (r: Int8)
    ensures (x - r) % 0x100 == 0
    ensures -0x80 <= x < 0x80 ==> r == x
  {
    (x + 0x80) % 0x100 - 0x80
  }

  /** `std::min` on integers */
  function Min(a: int, b: int): (r: int)
    ensures r <= a && r <= b
    ensures r == a || r == b
  {
    if b < a then b else a
  }

  /** `std::max` on integers */
  function Max(a: int, b: int): (r: int)
    ensures r >= a && r >= b
    ensures r == a || r == b
  {
    if a < b then b else a
  }
}
