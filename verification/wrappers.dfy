/** Failure-carrying result types shared by the editor and the evaluator. */
module Wrappers {

  /** A value that may be absent; stands for TypeScript's `T | undefined`. */
  datatype Option<+T> = None | Some(value: T) {

    /** The value, or `default` when there is none (TypeScript's `??`). */
    function GetOr(default: T): T {
      if Some? then value else default
    }
  }

  /** Either a value or an error; stands for a Promise that resolves or rejects. */
  datatype Result<+R, +E> = Success(value: R) | Failure(error: E)
}
