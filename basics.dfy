// Shared vocabulary: optional values and error results, fixed-width
// integer arithmetic, and the display geometry constants.

module Wrappers {
  datatype Option<T> = None | Some(value: T)

  /** A computation that either produces a value or raises an error. */
  datatype Result<T, E> = Ok(value: T) | Err(error: E)

  /** A computation with no value that either completes or raises. */
  datatype Outcome<E> = Pass | Fail(error: E)
}

/** Wrap-around arithmetic of the C fixed-width unsigned types. */
module Words {
  const U8: int := 0x100
  const U16: int := 0x1_0000
  const U32: int := 0x1_0000_0000
  const U32_MAX: int := 0xFFFF_FFFF

  type uint8 = n: int | 0 <= n < U8
  type uint16 = n: int | 0 <= n < U16
  type uint32 = n: int | 0 <= n < U32

  /** Conversion of any integer to uint8_t (modulo 2^8). */
  function Wrap8(n: int): uint8 { n % U8 }

  /** Conversion of any integer to uint16_t (modulo 2^16). */
  function Wrap16(n: int): uint16 { n % U16 }

  /** Conversion of any integer to uint32_t (modulo 2^32). */
  function Wrap32(n: int): uint32 { n % U32 }

  const I32_MIN: int := -0x8000_0000
  const I32_MAX: int := 0x7FFF_FFFF

  /** A 32-bit machine word (mp_int_t on this port). */
  type int32 = n: int | I32_MIN <= n <= I32_MAX

  /** Two's-complement wrap-around of any integer to 32 bits. */
  function Signed32(n: int): (r: int32)
    ensures I32_MIN <= n <= I32_MAX ==> r == n
    ensures (r - n) % U32 == 0
  {
    var u := Wrap32(n);
    if u > I32_MAX then u - U32 else u
  }
}

/** The LED matrix geometry (BITSFLOW_DISPLAY_WIDTH, _HEIGHT, _MAX_BRIGHTNESS). */
module Screen {
  const W: int := 5
  const H: int := 5
  const MAX: int := 9
}
