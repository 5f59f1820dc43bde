/** The outcome of an operation that can raise: the value it returns, or the
    message of the exception numpy or Python would raise instead. */
module Results {
  datatype Result<T> = Ok(value: T) | Err(reason: string)
}
