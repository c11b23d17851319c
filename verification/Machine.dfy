/** The fixed-width integers of the native code, and the usual optional value. */
module Machine {
  type byte = x: int | 0 <= x < 0x100

  type int32 = x: int | -0x8000_0000 <= x < 0x8000_0000

  /** A non-negative `jint`. */
  type count = x: int | 0 <= x < 0x8000_0000

  datatype Option<+T> = None | Some(value: T)
}
