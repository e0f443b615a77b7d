/** Unsigned integers of the widths the firmware computes with. */
module Words {
  type octet = x: int | 0 <= x < 0x100
  type word = x: int | 0 <= x < 0x1_0000
  type dword = x: int | 0 <= x < 0x1_0000_0000
}
