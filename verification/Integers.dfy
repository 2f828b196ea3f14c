// Machine integers that several parts of the program compute with.
module Integers {
  type u32 = n: int | 0 <= n < 0x1_0000_0000

  type i32 = n: int | -0x8000_0000 <= n < 0x8000_0000

  type u64 = n: int | 0 <= n < 0x1_0000_0000_0000_0000

  function Minimum(a: nat, b: nat): nat { if a < b then a else b }
}
