/**
 * The exception hierarchy of backend/exceptions.py as data.  Every kind is a
 * subclass of SubtitleConverterError there, so every Error is one here.
 */
module Exceptions {
  /** The class of a raised exception. */
  datatype Kind =
    | SubtitleConverterError  // the base class, raised directly by the orchestrator
    | ParseError
    | WriteError
    | ConversionError         // declared by the source, raised by no code of the core

  /** A raised exception: its class and its message, `str(e)`. */
  datatype Error = Error(kind: Kind, msg: string)

  /** A value, or the exception that replaced it. */
  datatype Result<+T> = Ok(value: T) | Err(error: Error)

  /**
   * The outcome of I/O the model does not perform (opening, decoding or loading a
   * file): the content that was read, or the text of the exception raised.
   */
  datatype IoResult<+T> = Read(content: T) | IoError(reason: string)
}
