/** Primitive types shared by every module: Go's fixed-width integers, its byte
    strings, and the value/error wrappers used for Go's `(T, error)` returns. */
module Base {

  datatype Option<T> = None | Some(value: T)

  /** A Go `(T, error)` pair where exactly one side is meaningful. */
  datatype Result<T> = Ok(value: T) | Err(error: GoString)

  /** Go `byte`. */
  type Byte = x: int | 0 <= x < 256

  /** Go `int64` (and `int` on the 64-bit targets the harness runs on). */
  type Int64 = x: int | -0x8000_0000_0000_0000 <= x < 0x8000_0000_0000_0000

  /** One byte of a Go `string` or `[]byte`, written as the character with
      that code, so that a Go byte string is a sequence of these and its
      `len` is the sequence length. */
  type ByteChar = c: char | c as int < 256 witness 'a'

  type GoString = seq<ByteChar>
}
