/** Fixed-width integers of the C program, written as bounded mathematical integers. */
module MachineInts {
  const U32_LIMIT := 0x1_0000_0000
  const I32_LIMIT := 0x8000_0000

  /** `uint8_t` / `unsigned char`. */
  type byte = x: int | 0 <= x < 256

  /** `uint32_t`. */
  type u32 = x: int | 0 <= x < 0x1_0000_0000

  /** Conversion to `uint32_t`: reduction modulo 2^32. */
  function ToU32(x: int): u32 {
    x % 0x1_0000_0000
  }

  /** Conversion of a `uint32_t` to `int` on a two's complement machine. */
  function ToInt32(x: u32): int {
    if x < 0x8000_0000 then x else x - 0x1_0000_0000
  }

  /** Unsigned sums may be reduced at any point. */
  lemma ToU32Add(a: int, b: int)
    ensures ToU32(ToU32(a) + b) == ToU32(a + b)
  {}

  lemma ToU32Congruent(a: int, b: int, c: int)
    requires ToU32(a) == ToU32(b)
    ensures ToU32(a + c) == ToU32(b + c)
  {
    ToU32Add(a, c);
    ToU32Add(b, c);
  }

  function Max(a: int, b: int): int {
    if a > b then a else b
  }

  function Min(a: int, b: int): int {
    if a < b then a else b
  }
}
