/** The machine words of the C++ programs, and the hexadecimal text of digests. */
module MachineWords {

  const TWO_32: nat := 0x1_0000_0000
  const TWO_64: nat := 0x1_0000_0000_0000_0000
  const TWO_128: nat := 0x1_0000_0000_0000_0000_0000_0000_0000_0000

  const MAX_64: nat := 0xFFFF_FFFF_FFFF_FFFF
  const MAX_128: nat := 0xFFFF_FFFF_FFFF_FFFF_FFFF_FFFF_FFFF_FFFF

  /** The greatest object size of a 64-bit program, in bytes. */
  const SIZE_MAX: nat := MAX_64

  const INT32_MAX: nat := 0x7FFF_FFFF

  /** 2^63 and 2^127: signed words reach from minus these up to but excluding them. */
  const INT64_LIMIT: nat := 0x8000_0000_0000_0000
  const INT128_LIMIT: nat := 0x8000_0000_0000_0000_0000_0000_0000_0000

  predicate Signed64(value: int) {
    -(INT64_LIMIT as int) <= value < INT64_LIMIT
  }

  predicate Signed128(value: int) {
    -(INT128_LIMIT as int) <= value < INT128_LIMIT
  }

  predicate IsHexDigit(c: char) {
    '0' <= c <= '9' || 'a' <= c <= 'f'
  }

  /** Lowercase hexadecimal text of one width. */
  predicate IsHex(text: string, width: nat) {
    |text| == width && forall c | c in text :: IsHexDigit(c)
  }

  predicate IsHex256(text: string) {
    IsHex(text, 64)
  }
}
