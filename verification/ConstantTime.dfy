/** Masks and selection without branches, on 64-bit words. */
module ConstantTime {
  const TRUE_W: bv64 := 0xffff_ffff_ffff_ffff
  const TRUE_8: bv8 := 0xff

  /** All ones, or all zeros. */
  function Mask(b: bool): bv64 {
    if b then TRUE_W else 0
  }

  function Mask8(b: bool): bv8 {
    if b then TRUE_8 else 0
  }

  /** `constant_time_msb_w`: the most significant bit in all places. */
  function MsbW(a: bv64): (m: bv64)
    ensures m == Mask(a >= 0x8000_0000_0000_0000)
  {
    0 - (a >> 63)
  }

  /** `constant_time_is_zero_w`. */
  function IsZeroW(a: bv64): (m: bv64)
    ensures m == Mask(a == 0)
  {
    MsbW(!a & (a - 1))
  }

  /** `constant_time_eq_w`. */
  function EqW(a: bv64, b: bv64): (m: bv64)
    ensures m == Mask(a == b)
  {
    IsZeroW(a ^ b)
  }

  /** `constant_time_select_w`. */
  function SelectW(mask: bv64, a: bv64, b: bv64): (r: bv64)
    ensures mask == TRUE_W ==> r == a
    ensures mask == 0 ==> r == b
  {
    (mask & a) | (!mask & b)
  }

  /** `(uint8_t)`. */
  function Low8(a: bv64): bv8 {
    (a & 0xff) as bv8
  }

  /** `constant_time_is_zero_8`. */
  function IsZero8(a: bv64): (m: bv8)
    ensures m == Mask8(a == 0)
  {
    Low8(IsZeroW(a))
  }

  /** `constant_time_eq_8`, and `constant_time_eq_int_8` on numbers that are not negative. */
  function Eq8(a: bv64, b: bv64): (m: bv8)
    ensures m == Mask8(a == b)
  {
    Low8(EqW(a, b))
  }

  /** `constant_time_select_8`: the mask and the values are widened with zeros. */
  function Select8(mask: bv8, a: bv8, b: bv8): (r: bv8)
    ensures mask == TRUE_8 ==> r == a
    ensures mask == 0 ==> r == b
  {
    Low8(SelectW(mask as bv64, a as bv64, b as bv64))
  }
}
