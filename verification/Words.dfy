// Machine words.
module Words {
  type uint32 = x: int | 0 <= x < 0x1_0000_0000
  type uint64 = x: int | 0 <= x < 0x1_0000_0000_0000_0000

  const INT_MAX := 0x7FFF_FFFF
}
