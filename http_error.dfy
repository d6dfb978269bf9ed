/** `HttpError`, the error type of the `Data`-based header generation. */
module HttpError {
  datatype HttpError =
    | InvalidEncoding     // bytes that do not conform to the required encoding
    | TruncatedData       // the header end "\r\n\r\n" is missing
    | ProtocolViolation   // a malformed status line or field line
    | ApiMisuse           // a builder without a required part
}
