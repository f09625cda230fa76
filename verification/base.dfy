/** Small shared vocabulary: optional values, results with an error side,
    and the abstract clock value every stored timestamp uses. */
module Base {

  /** A value that may be absent (Python's `Optional[...]`, SQL's NULL). */
  datatype Option<+T> = None | Some(value: T)

  /** The outcome of an operation that can be refused. */
  datatype Result<+T, +E> = Ok(value: T) | Err(error: E)

  /** Timestamps are an abstract, totally ordered clock reading. The store
      never establishes monotonicity, so nothing here assumes it. */
  type Timestamp = int

  function Min(a: int, b: int): int
  {
    if a <= b then a else b
  }
}
