/** The three failure kinds of the engine and a failure-compatible result type.
    Every exception the original throws becomes an `Err` carrying its kind. */
module Results {

  /** The error taxonomy: trees of different topology were zipped, two concrete
      types disagree on tag or arity, or `arg`/`ret` was asked for a side of a leaf. */
  datatype Error = ZipShapeMismatch | TypeMismatch | LeafAccess

  datatype Result<+T> = Ok(value: T) | Err(error: Error) {

    predicate IsFailure() {
      Err?
    }

    function PropagateFailure<U>(): Result<U>
      requires Err?
    {
      Err(error)
    }

    function Extract(): T
      requires Ok?
    {
      value
    }
  }
}
