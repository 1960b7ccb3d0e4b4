// Option, Result and the error codes of libelf/include/elf/errors.hpp.
module Wrappers {

  datatype Option<+T> = None | Some(value: T)

  datatype ErrorCode =
    | TruncatedFile
    | BadMagic
    | UnsupportedClass
    | UnsupportedDataEncoding
    | InconsistentHeaderSize
    | OffsetOutOfBounds
    | IndexOutOfBounds
    | AlreadyPatched
    | Unsupported
    | InvalidArgument
    | RelocationFailed

  datatype Result<+T> = Ok(value: T) | Err(code: ErrorCode)
}
