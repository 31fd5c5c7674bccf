/** Small value types shared by every module of the file-asset service model. */
module Common {

  /** A value that may be missing: PHP's null. */
  datatype Option<+T> = None | Some(value: T)

  /** The outcome of an operation that either yields a value or fails with a typed error. */
  datatype Result<+R, +E> = Success(value: R) | Failure(error: E)

  /** One byte of blob content. */
  newtype byte = x: int | 0 <= x < 256

  /**
   * An uploaded file as the framework hands it to the application: the client's
   * original file name, the MIME type detected from its content, and its bytes.
   * `getSize()` of such a file is the length of `content`.
   */
  datatype Upload = Upload(clientOriginalName: string, mimeType: string, content: seq<byte>)

  function Min(a: int, b: int): int
  {
    if a <= b then a else b
  }
}
