/** Absent values, and the error cases of `src/error.rs` that an infallible store and merge leave. */
module Wrappers {

  datatype Option<+T> = None | Some(value: T)

  datatype Error =
    | GetRootOnEmpty
    | InconsistentStore
    | CorruptedProof
    | NodeProofsNotSupported
    | GenProofForInvalidLeaves
    | MergeError(cause: Error)
    | SliceOutOfRange  // not an error of the source: the panic of a slice that starts past the end

  datatype Result<+T> = Ok(value: T) | Err(error: Error)
}
