/**
 * Machine integer ranges, the Option/Result wrappers and the error taxonomy
 * shared by every part of the label decoder.
 */
module Types {

  type u8 = x: int | 0 <= x < 0x100
  type u32 = x: int | 0 <= x < 0x1_0000_0000
  type i32 = x: int | -0x8000_0000 <= x < 0x8000_0000
  type u64 = x: int | 0 <= x < 0x1_0000_0000_0000_0000
  type i64 = x: int | -0x8000_0000_0000_0000 <= x < 0x8000_0000_0000_0000

  /** The largest offset a file cursor can hold (`off_t` is a signed 64-bit integer). */
  const I64_MAX: int := 0x7FFF_FFFF_FFFF_FFFF

  datatype Option<T> = None | Some(value: T)

  datatype Result<T, E> = Ok(value: T) | Err(error: E)

  /** Where the Rust code aborts instead of returning an error. */
  datatype PanicKind =
    | UnwrapOnNone        // `Option::unwrap` on `None`
    | UnwrapOnErr         // `Result::unwrap` on `Err`
    | Unimplemented       // `unimplemented!()`
    | Unreachable         // `unreachable!()`
    | ArithmeticOverflow  // integer overflow in a debug build

  /**
   * The error kinds the decoder distinguishes. `InvalidInput` carries the
   * offending number (the Rust code renders it in decimal as the message).
   * A panic is not catchable in the source; the model surfaces it as a
   * terminal outcome of its own so that it is never confused with an error.
   */
  datatype Error =
    | UnexpectedEof           // `read_exact` ran out of bytes
    | InvalidSeek             // seek to a negative or overflowing position
    | InvalidInput(value: int)
    | InvalidUtf8             // `String::from_utf8` rejected the bytes
    | FileMissing             // a sysfs file could not be read
    | Panic(kind: PanicKind)
}
