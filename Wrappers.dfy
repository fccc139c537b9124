/** Optional values and results with an error, the two shapes the TypeScript
    code expresses with `undefined` fields and with a thrown `Error`. */
module Wrappers {

  /** An optional field: `None` stands for a property that is `undefined`. */
  datatype Option<+T> = None | Some(value: T)

  /** The outcome of an operation that may throw. */
  datatype Result<+R, +E> = Success(value: R) | Failure(error: E)
}
