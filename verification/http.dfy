/** Outcomes of HTTP requests and of asynchronous operations, as seen by the
    code in src/services/api.ts and src/stores/auth.store.ts. The backend and
    the network are not modelled: what a request returns is an input. */
module Http {

  /** Why a request or an operation was rejected: `decodeURIComponent` threw
      a URIError, or the request failed (network, timeout, non-2xx status),
      carrying whatever the backend sent. */
  datatype ApiError = UriError | RequestFailed(reason: string)

  /** The settled value of an awaited request: its response data, or the
      error it was rejected with. */
  datatype Response<+T> = Ok(data: T) | Err(error: ApiError)

  /** How an `async` function's promise settles: it resolves, or it rejects
      with an error (the source's `throw`). */
  datatype Completion = Resolved | Rejected(error: ApiError)
}
