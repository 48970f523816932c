/** Raw bytes as a Python `bytes` object holds them. */
module Bytes {

  /** One element of a `bytes` object: an integer in [0, 256). */
  type Byte = b: int | 0 <= b < 0x100

  function Min(a: int, b: int): (m: int)
  {
    if a <= b then a else b
  }
}
