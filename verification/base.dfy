/** Failure-carrying values shared by the whole model: Go's `error` and the
    nil-or-value results of the repository's helpers. */
module Base {

  /** A Go `error` value. Its text is whatever the failing service reported. */
  datatype Err = Err(message: string)

  /** A value that may be absent; stands for a Go pointer that may be nil and
      for an `error` that may be nil. */
  datatype Option<+T> = None | Some(value: T)

  /** A value or the error that prevented computing it, as in Go's `(T, error)`. */
  datatype Result<+T> = Ok(value: T) | Fail(error: Err)
}
