/** Machine-integer ranges and the checked arithmetic of the ledger. */
module Numbers {

  type byte = x: int | 0 <= x < 256

  const I32_MIN: int := -0x8000_0000
  const I32_MAX: int := 0x7fff_ffff
  const U32_MAX: int := 0xffff_ffff
  const I64_MIN: int := -0x8000_0000_0000_0000
  const I64_MAX: int := 0x7fff_ffff_ffff_ffff
  const USIZE_MAX: int := 0xffff_ffff_ffff_ffff

  predicate IsI32(x: int) {
    I32_MIN <= x <= I32_MAX
  }

  predicate IsI64(x: int) {
    I64_MIN <= x <= I64_MAX
  }

  type i64 = x: int | IsI64(x) witness 0
  type i32 = x: int | IsI32(x) witness 0

  function Max(a: int, b: int): (m: int)
    ensures m == a || m == b
  {
    if a < b then b else a
  }

  /** Powers of ten. */
  function Pow10(e: nat): (p: nat)
    ensures p >= 1
  {
    if e == 0 then 1 else 10 * Pow10(e - 1)
  }
}
