/** Machine integers that several parts use. */
module Words {
  type Byte = b: int | 0 <= b < 256

  const WORD_MODULUS := 0x1_0000_0000

  /** The little-endian numbers in a sequence of bytes. */
  function Le16(s: seq<Byte>, at: nat): nat
    requires at + 1 < |s|
  {
    s[at] as int + 256 * s[at + 1] as int
  }

  function Le32(s: seq<Byte>, at: nat): nat
    requires at + 3 < |s|
  {
    Le16(s, at) + 0x1_0000 * Le16(s, at + 2)
  }

  function Min(a: int, b: int): int {
    if a < b then a else b
  }
}
