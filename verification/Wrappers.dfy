/** Failure-carrying results shared by every module, and the error type of core/src/error.rs. */
module Wrappers {
  datatype Option<+T> = None | Some(value: T) {
    predicate IsFailure() { None? }
    function PropagateFailure<U>(): Option<U> requires None? { None }
    function Extract(): T requires Some? { value }
  }

  datatype Result<+T, +E> = Ok(value: T) | Err(error: E) {
    predicate IsFailure() { Err? }
    function PropagateFailure<U>(): Result<U, E> requires Err? { Err(error) }
    function Extract(): T requires Ok? { value }
  }

  /** The i/o failures the pipeline distinguishes. `Interrupted` is always retried. */
  datatype IoError = Interrupted | UnexpectedEof | Fault | InvalidInput

  /** The error variants of core/src/error.rs. */
  datatype Error =
    | Io(io: IoError)
    | NotCoreStorage(found: int)
    | UnsupportedEncryptionMethod(found: int)
    | MetadataStructureMissing(what: string)
    | Base64(what: string)
    | KeyUnwrap(what: string)
    | OutOfRange(what: string)

  function OkOr<T, E>(o: Option<T>, e: E): Result<T, E> {
    if o.Some? then Ok(o.value) else Err(e)
  }
}
