/** Values shared by the engine and the Qdrant wrapper: Go's `error`, its
    nil-or-value idiom, and the handle of the Qdrant client library. */
module Common {

  /** A Go value that may be nil. */
  datatype Option<+T> = None | Some(value: T)

  /** The outcome of a call into code outside the model: a value or a Go `error`. */
  datatype Result<+T> = Success(value: T) | Failure(error: Error)

  /** A Go `error`; only its message is observable. */
  datatype Error = Error(message: string)

  /** The `error` a Go caller sees from an outcome: nil on success. */
  function ErrorOf<T>(r: Result<T>): (e: Option<Error>)
    ensures e.None? <==> r.Success?
    ensures r.Failure? ==> e == Some(r.error)
  {
    if r.Failure? then Some(r.error) else None
  }

  /** The configuration handed to `qdrant.NewClient`. */
  datatype ClientConfig = ClientConfig(host: string, port: int)

  /** A `*qdrant.Client` handle; the client library is not part of this model. */
  type Client(==)
}
