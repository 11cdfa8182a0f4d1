/** The failure-carrying datatypes the codec returns: `Option` for the table lookups
    (`Opcode::from`, `ErrorCode::from`, `TransferMode::parse`) and `Result` for every
    operation that can fail. */
module Wrappers {
  datatype Option<+T> = None | Some(value: T)

  datatype Result<+T, +E> = Success(value: T) | Failure(error: E)
}
