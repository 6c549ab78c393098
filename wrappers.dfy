/** Option and Result, and the error kinds the editor can raise. */
module Wrappers {

  datatype Option<+T> = None | Some(value: T)

  datatype Result<+T, +E> = Success(value: T) | Failure(error: E)

  /** The failures of the editor core: cursor misuse, the propagated I/O
      failures of the persistence collaborator, and the unsigned underflows
      that make the program panic. */
  datatype Error =
    | DepthError     // an index of the cursor path does not exist
    | MinDepthError  // popping the last remaining cursor entry
    | LoadError      // a document could not be read back from its file
    | IoError        // a write or a file removal failed
    | SwitchError    // no document was chosen when switching
    | Underflow      // an unsigned subtraction below zero (a panic)
}
