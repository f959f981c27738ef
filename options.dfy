/** Rust's `Option`, used for `get_pixel_color` and for the intersection oracle. */
module Options {
  datatype Option<+T> = None | Some(value: T)
}
