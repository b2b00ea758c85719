/** The outcomes of the quad-key operations: a value, or the runtime_error the
    source throws, classified by cause. */
module Outcome {
  datatype KeyError = InvalidDepth | InvalidKey | MaxDepthReached | NoParent

  datatype Result<T> = Ok(value: T) | Err(error: KeyError)
}
