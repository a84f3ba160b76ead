/** Outcome types shared by the RPM walker. */
module Errors {

  import opened Bytes

  datatype Option<+T> = None | Some(value: T)

  /** Why a conversion produced no output. */
  datatype Error =
    | NotAnRpm                          // the first four bytes are not the RPM magic
    | UnterminatedName                  // a compressor name with no NUL before the end of the data
    | UnsupportedCompressor(name: seq<byte>) // a compressor name the registry does not know
    | DecompressionFailed               // the chosen codec rejected the payload

  datatype Result<+T> = Ok(value: T) | Err(error: Error)
}
