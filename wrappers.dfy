/** Option and Result, the two ways the indenter's operations report "no match" and errors. */
module Wrappers {

  datatype Option<T> = None | Some(value: T)

  datatype Result<T, E> = Success(value: T) | Failure(error: E)

  /** The exceptions `Indenter` throws, as values. */
  datatype IndentError =
    | UnrecognizedOption        // __construct: an option key other than indentation_character
    | UnrecognizedElementType   // setElementType: a type other than BLOCK or INLINE
    | DidNotReproduceInput      // indent: the logged matches do not rebuild the scanned text
}
