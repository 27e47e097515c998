/** Machine-integer types and the Option wrapper shared by the whole model. */
module Words {

  /** An unsigned 8-bit value (Rust `u8`). */
  type UInt8 = x: int | 0 <= x < 0x100

  /** An unsigned 32-bit value (Rust `u32`); every stored word is one. */
  type UInt32 = x: int | 0 <= x < 0x1_0000_0000

  const UINT32_MAX: UInt32 := 0xffff_ffff

  datatype Option<+T> = None | Some(value: T)
}
