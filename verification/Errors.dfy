// The crate's error and result types (src/error.rs), kept to what contracts need.

module Errors {

  datatype Error =
    | InvalidConfig(message: string)
    | OutOfBounds(index: nat, len: nat)
    | CapacityExceeded(len: nat, capacity: nat)
    | ValidationFailed(message: string)
    | RuntimeClosed
    | WorkerPanicked(count: nat)
    | Io

  datatype Result<+T> = Ok(value: T) | Err(error: Error)

  datatype Option<+T> = None | Some(value: T)
}
