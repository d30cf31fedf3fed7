/** Small shared vocabulary: optional values, Java's 32-bit int, and the
    exceptions the bridge can raise at run time. */
module Base {

  /** A Java reference that may be null, or a JavaScript value that may be null. */
  datatype Option<+T> = None | Some(value: T) {
    function GetOr(default: T): T {
      match this
      case Some(v) => v
      case None => default
    }
  }

  /** Java's `int`: two's-complement, 32 bits. */
  type Int32 = x: int | -0x8000_0000 <= x < 0x8000_0000

  /** The unchecked Java exceptions the modelled code can throw. */
  datatype JavaException =
    | IllegalArgument     // URLDecoder.decode on a malformed '%' escape
    | IndexOutOfBounds    // String.substring with begin > end

  /** Normal completion with a value, or an exception thrown. */
  datatype Result<+T> = Ok(value: T) | Thrown(error: JavaException)
}
