/** Optional values and results, in the shapes the TypeScript source uses them:
    `T | null` for an optional field and a rejected promise for a failed file operation. */
module Wrappers {

  /** `T | null`: None stands for null. */
  datatype Option<+T> = None | Some(value: T)

  /** The outcome of an operation that may reject. */
  datatype Result<+R, +E> = Success(value: R) | Failure(error: E)

  /** JavaScript truthiness of a `string | null`: present and not the empty string. */
  predicate Truthy(o: Option<string>)
  {
    o.Some? && o.value != ""
  }
}
