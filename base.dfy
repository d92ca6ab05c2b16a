/** Shared value types: optional values, results, and the fixed-width
    integers of the native FreeType structures. */
module Base {

  datatype Option<+T> = None | Some(value: T)

  datatype Result<+T, +E> = Ok(value: T) | Err(error: E)

  /** An 8-bit byte of font data. */
  newtype byte = x: int | 0 <= x < 0x100

  /** FreeType's FT_UShort / Rust's u16. */
  newtype u16 = x: int | 0 <= x < 0x1_0000

  /** FreeType's FT_Short / Rust's i16. */
  newtype i16 = x: int | -0x8000 <= x < 0x8000

  /** Rust's u32. */
  newtype u32 = x: int | 0 <= x < 0x1_0000_0000

  /** Two's-complement wrap-around of an exact result into i16, which is what
      release builds of Rust do on i16 overflow. */
  function Wrap16(x: int): (r: i16)
    ensures (r as int - x) % 0x1_0000 == 0
    ensures -0x8000 <= x < 0x8000 ==> r as int == x
  {
    (((x + 0x8000) % 0x1_0000) - 0x8000) as i16
  }

  /** Rust's `a / 2` on a signed integer, which truncates toward zero (Dafny's
      `/` is Euclidean and rounds down when the dividend is negative). */
  function HalfTowardZero(a: int): (q: int)
    ensures a >= 0 ==> 0 <= a - 2 * q <= 1
    ensures a < 0 ==> -1 <= a - 2 * q <= 0
  {
    if a >= 0 then a / 2 else -((-a) / 2)
  }
}
