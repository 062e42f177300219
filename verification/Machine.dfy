/**
 The fixed-width integers of the C++ code. They are subset types of `int`, so every
 assignment to a variable of such a type carries a proof that the machine operation does not wrap.
 Where the code relies on wrap-around, `Wrap32` or `Wrap64` writes it out.
*/
module Machine {

  const TWO_16 := 0x1_0000
  const TWO_31 := 0x8000_0000
  const TWO_32 := 0x1_0000_0000
  const TWO_64 := 0x1_0000_0000_0000_0000

  type uint8 = x: int | 0 <= x < 256
  type uint16 = x: int | 0 <= x < TWO_16
  type uint32 = x: int | 0 <= x < TWO_32
  type uint64 = x: int | 0 <= x < TWO_64

  type int32 = x: int | -0x8000_0000 <= x < 0x8000_0000
  type int64 = x: int | -0x8000_0000_0000_0000 <= x < 0x8000_0000_0000_0000

  type Bytes = seq<uint8>

  function Wrap16(x: int): uint16 { x % TWO_16 }

  function Wrap32(x: int): uint32 { x % TWO_32 }

  function Wrap64(x: int): uint64 { x % TWO_64 }
}
