/** Option and Result values, and the errors the services raise. */
module Wrappers {

  datatype Option<+T> = None | Some(value: T) {
    function GetOr(default: T): T {
      match this
      case Some(v) => v
      case None => default
    }
  }

  datatype Result<+T, +E> = Ok(value: T) | Err(error: E)
}

module Errors {

  /** The HTTP statuses the core raises (NestJS `HttpStatus`). */
  const NOT_FOUND: int := 404
  const LENGTH_REQUIRED: int := 411
  const UNSUPPORTED_MEDIA_TYPE: int := 415

  /** What can abort an operation of the core: an `HttpException` the code throws on
      purpose, a property access on `null` (JavaScript's `TypeError`), a rejected
      `fs.unlink` of a path that does not exist (`ENOENT`), or the PDF writer refusing
      a file it cannot read as an image. */
  datatype Error =
    | HttpException(message: string, status: int)
    | TypeError
    | Enoent(path: string)
    | UnreadableImage(path: string)
}
