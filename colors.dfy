/** raylib's `Color`: four 8-bit channels (red, green, blue, alpha). */
module Colors {
  /** An unsigned 8-bit channel value (`u8`). */
  type byte = x: int | 0 <= x < 256

  datatype Color = Color(r: byte, g: byte, b: byte, a: byte)

  /** raylib's `Color::BLACK` and `Color::WHITE` (both opaque). */
  const BLACK: Color := Color(0, 0, 0, 255)
  const WHITE: Color := Color(255, 255, 255, 255)
}
