/** Option and Result values shared by every module, byte strings, and runs stamped with clock readings. */
module Wrappers {

  datatype Option<+T> = None | Some(value: T)

  datatype Result<+T, +E> = Success(value: T) | Failure(error: E)

  type Byte = b: int | 0 <= b < 256

  type Bytes = seq<Byte>

  /** A clock that never goes backwards over the run. */
  predicate Nondecreasing<T>(trace: seq<(int, T)>) {
    forall a, b | 0 <= a < b < |trace| :: trace[a].0 <= trace[b].0
  }
}
