/**
 * What both web services answer with: a success value, or an error body
 * `{"error": message}` together with its HTTP status code.
 */
module Http {
  import opened Wrappers

  const BadRequest: int := 400
  const Forbidden: int := 403
  const NotFound: int := 404
  /** What Flask answers when an endpoint raises an exception it does not catch. */
  const InternalServerError: int := 500

  datatype Failure = Failure(code: int, message: string)

  /**
   * The store after a request together with its response. The store is part of
   * the reply even on failure, because a request may fail after it has written.
   */
  datatype Reply<S, T> = Reply(store: S, result: Result<T, Failure>)
}
