/** The integer types of the programs: their bounds and their saturating operations. */
module Integers {

  const I32_MAX: int := 0x7FFF_FFFF
  const I32_MIN: int := -0x8000_0000
  const I64_MAX: int := 0x7FFF_FFFF_FFFF_FFFF
  const I64_MIN: int := -0x8000_0000_0000_0000
  const U32_MAX: nat := 0xFFFF_FFFF
  const USIZE_MAX: nat := 0xFFFF_FFFF_FFFF_FFFF
  const TWO_TO_THE_32: int := 0x1_0000_0000
  const TWO_TO_THE_64: int := 0x1_0000_0000_0000_0000

  type U32 = n: nat | n <= U32_MAX

  function SaturatingI64(x: int): int {
    if x > I64_MAX then I64_MAX else if x < I64_MIN then I64_MIN else x
  }

  function SaturatingU32(x: nat): U32 {
    if x > U32_MAX then U32_MAX else x
  }

  function SaturatingSub(x: nat, y: nat): nat {
    if x >= y then x - y else 0
  }
}
