/** Absence and failure, as the two symbol tables report them. */
module Results {

  /** A reference that may be null: a missing argument, or "no such point". */
  datatype Option<T> = None | Some(value: T)

  /** The only failure either symbol table raises: a null argument
      (java.lang.NullPointerException), thrown before anything changes. */
  datatype Error = NullPointer

  /** The outcome of a query that may throw. */
  datatype Result<T> = Ok(value: T) | Err(error: Error)

  /** The outcome of an operation that returns nothing but may throw. */
  datatype Outcome = Pass | Fail(error: Error)
}
