/**
 Outcomes shared by the pacct model: the exception classes the extension
 raises, and the Option / Result wrappers used in place of `nil` and of a
 Ruby `raise`.
 */
module Errors {

  /** The kinds of exception the core raises. */
  datatype ErrorKind =
    | ArgumentError  // an unknown file mode; a string holding a NUL byte where a C string is needed
    | IOError        // fopen failed, the file is the wrong size, a short read or a short write
    | RangeError     // comp_t exponent overflow; each_entry start out of range
    | SeekError      // an fseek that failed (CHECK_CALL raises SystemCallError)

  /** A value or nothing (`nil` on the Ruby side). */
  datatype Option<+T> = None | Some(value: T)

  /** A value, or the exception raised instead of returning one. */
  datatype Result<+T> = Ok(value: T) | Err(error: ErrorKind)
}
