/** The i386 value ranges the kernel's C code works with. */
module Machine {
  const WORD_LIMIT := 0x1_0000_0000
  const WORD_MAX := 0xFFFF_FFFF

  type Byte = x: int | 0 <= x < 0x100
  type Half = x: int | 0 <= x < 0x1_0000
  type Word = x: int | 0 <= x < 0x1_0000_0000

  /** A value that may be missing, such as the pointer argument NULL or an empty input port. */
  datatype Option<T> = None | Some(value: T)

  /** The value of `x` after a conversion to a 32-bit signed integer. */
  function ToInt32(x: int): (r: int)
    ensures -0x8000_0000 <= r < 0x8000_0000
    ensures (r - x) % WORD_LIMIT == 0
  {
    var w := x % WORD_LIMIT;
    if w < 0x8000_0000 then w else w - WORD_LIMIT
  }

  /** The value of a byte read through a plain (signed) `char`. */
  function SignedChar(b: Byte): (r: int)
    ensures -128 <= r < 128 && r % 256 == b
  {
    if b < 128 then b else b - 256
  }
}
