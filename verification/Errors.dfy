// The error kinds of the storage engine, one per constructor of dropper.errors.go.
module Errors {
  datatype FsError =
    | PathTooLong | PathTraversal | PathResolution
    | ReadonlyMode | ExtNotAllowed | FileTooLarge | FileExists | DirExists | InvalidRelPath
    | NotFound | NotADirectory
    | TempFileError | WriteFileError | RenameFileError | CreateDirError | ListDirError

  datatype Option<+T> = None | Some(value: T)

  datatype Result<+T, +E> = Ok(value: T) | Err(error: E)
}
