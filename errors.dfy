/** The orchestrator's error type; each variant carries the message of its cause. */
module Errors {

  datatype NodeError =
    | ReadDirError(message: string)
    | RemoveFileError(message: string)
    | CompressFileError(message: string)
    | InvalidModeError(mode: string)
    | CompressorInitError(message: string)
}
