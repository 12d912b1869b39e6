/** Machine integer widths and the optional-value wrapper shared by every module. */
module Types {

  /** An unsigned 8-bit value (`u8`, `unsigned char`). */
  type u8 = x: int | 0 <= x < 0x100

  /** An unsigned 16-bit value (`u16`, `unsigned short`). */
  type u16 = x: int | 0 <= x < 0x1_0000

  /** An unsigned 32-bit value (`unsigned` on the hosts the tools run on). */
  type u32 = x: int | 0 <= x < 0x1_0000_0000

  datatype Option<T> = None | Some(value: T)

  /** Low and high byte of a 16-bit value. */
  function Lo(w: u16): u8 { w % 0x100 }
  function Hi(w: u16): u8 { w / 0x100 }
}
