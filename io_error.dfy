/** The `std::io::ErrorKind` values the library produces or passes through. */
module IoError {
  datatype ErrorKind =
    | NotFound
    | InvalidInput
    | InvalidData
    | TimedOut
    | UnexpectedEof
    | Interrupted
    | Other
}
