/** The fixed-width integers the sources compute with, and the one conversion between them that matters. */
module MachineInts {
  type u8 = x: int | 0 <= x < 0x100
  type u32 = x: int | 0 <= x < 0x1_0000_0000
  type u64 = x: int | 0 <= x < 0x1_0000_0000_0000_0000

  const UINT32_MAX: u32 := 0xFFFF_FFFF

  /** `(int)x` for a 32-bit unsigned `x`: two's complement. */
  function AsSigned32(x: u32): (r: int)
    ensures 0 <= r <==> x < 0x8000_0000
  {
    if x < 0x8000_0000 then x else x - 0x1_0000_0000
  }
}

module Wrappers {
  datatype Option<+T> = None | Some(value: T)
}
