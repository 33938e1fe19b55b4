/**
 * The exceptions the core raises. The first three are the framework's
 * built-in HTTP exceptions; `Upstream` stands for any error raised inside
 * the identity library or the database client.
 */
module Exceptions {
  import opened Wrappers

  datatype Exception =
    | NotFound(message: string)
    | Forbidden(message: string)
    | BadRequest(message: string)
    | Upstream(message: string)

  /** The outcome of an operation that may throw. */
  type Outcome<T> = Result<T, Exception>
}
