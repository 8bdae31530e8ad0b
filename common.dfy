/** Fixed-width integer and byte types shared by the models, plus the
    Option/Result wrappers used for error paths. */
module Common {

  /** An octet as the C code sees it (`uint8_t`), as its numeric value. The
      masks and shifts the C code applies to octets are written as the
      equivalent division, remainder and multiplication by powers of two. */
  newtype byte = x: int | 0 <= x < 0x100

  /** `uint16_t` and `uint32_t` as mathematical integers in range. */
  type u16 = x: int | 0 <= x < 0x1_0000
  type u32 = x: int | 0 <= x < 0x1_0000_0000

  datatype Option<+T> = None | Some(value: T)

  datatype Result<+T, +E> = Ok(value: T) | Err(error: E)
}
