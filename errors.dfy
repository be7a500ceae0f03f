/**
 * The failure conditions the DeltaVision file core raises (as exceptions in
 * the C++ code), and the result wrappers the model returns them through.
 */
module Errors {

  datatype Error =
    | OpenFailed                 // "Failed to open file"
    | CreateFailed               // "Failed to create file"
    | UnrecognizedFormat         // "<path> is not a recognized DV file."
    | ClosedForRead              // "Cannot read from closed file..."
    | ClosedForWrite             // "Cannot write to closed file..."
    | UnknownPixelType           // std::out_of_range from the pixel-size table
    | TimeIndexOutOfRange
    | WavelengthIndexOutOfRange
    | SectionIndexOutOfRange
    | UnknownFileMode             // "Unknown file mode: ..."
    | StreamNotFound(istream: int)
    | InvalidNtflag(ntflag: int)

  datatype Result<T> = Ok(value: T) | Err(error: Error)

  datatype Outcome = Pass | Fail(error: Error)
}
