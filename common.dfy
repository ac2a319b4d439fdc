/** Small value types shared by every module of the model. */
module Common {

  /** Rust's `Option<T>`. */
  datatype Option<T> = None | Some(value: T) {
    /** `Option::unwrap_or`. */
    function UnwrapOr(default: T): (r: T)
      ensures Some? ==> r == value
      ensures None? ==> r == default
    {
      match this
      case Some(v) => v
      case None => default
    }
  }

  /** An unsigned 8-bit value (`u8`). */
  type byte = x: int | 0 <= x < 256

  /** An unsigned 16-bit value (`u16`). */
  type u16 = x: int | 0 <= x < 0x1_0000
}
