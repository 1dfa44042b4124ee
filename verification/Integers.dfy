/** Fixed-width integers, and the small datatypes and operators that several files share. */
module Integers {
  type u16 = x: int | 0 <= x < 0x10000
  type u32 = x: int | 0 <= x < 0x1_0000_0000
  type i16 = x: int | -0x8000 <= x < 0x8000
  type i32 = x: int | -0x8000_0000 <= x < 0x8000_0000

  datatype Option<T> = None | Some(value: T)

  function Abs(x: int): nat { if x < 0 then -x else x }

  /** Division as C has it, towards zero; a division by zero, which C leaves open, gives zero. */
  function Quotient(a: int, b: int): int {
    if b == 0 then 0
    else if (a >= 0) == (b > 0) then Abs(a) / Abs(b)
    else -(Abs(a) / Abs(b))
  }

  function Remainder(a: int, b: int): int {
    if b == 0 then 0 else a - b * Quotient(a, b)
  }
}
