/**
 * The exceptions the core can raise: the library's own MimeTypeException,
 * raised when a content-type name is malformed, and the runtime exceptions
 * that escape from the pattern code.
 */
module Faults {

  /** Why a content-type name was refused. */
  datatype Malformed =
    | NullOrEmpty     // the whole name is empty
    | NoSeparator     // the name has no '/'
    | InvalidPrimary  // the part before '/' is blank or holds a forbidden character
    | InvalidSub      // the part after '/', parameters removed, is blank or holds one

  datatype Fault =
    | MimeTypeException(reason: Malformed)
    | ArgumentException         // a hexadecimal literal holds a character that is not a hex digit
    | NullReferenceException    // a pattern whose hexadecimal literal had odd length is used
    | IndexOutOfRangeException  // a pattern reads outside the data it is compared with
    | InvalidCastException      // an element of an object array is not a boxed byte
}
