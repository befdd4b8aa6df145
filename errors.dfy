/** The four failure kinds of `src/error.rs` and the `Result` type carrying them. */
module Errors {
  import opened Types

  datatype ServiceError =
    | ServiceNotFound(missing: TypeId)
    | MissingDependency(dependency: TypeId)
    | InitializationError(message: string)
    | ShutdownError(message: string)

  /** `Result<T, ServiceError>`. */
  datatype Result<+T> = Ok(value: T) | Err(error: ServiceError)

  /** `Result<(), ServiceError>`, what every hook and registry operation returns. */
  type Outcome = Result<()>
}
