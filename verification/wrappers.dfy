/** Failure-compatible wrappers used by the schema inference model.
    `Option` stands for a Java reference that may be null, `Result` for a
    computation that may throw an exception. */
module Wrappers {

  datatype Option<+T> = None | Some(value: T)

  /** `Ok` carries the computed value, `Fail` the kind of exception thrown.
      Usable with `:-`, so the first failure aborts the enclosing computation. */
  datatype Result<+T, +E> = Ok(value: T) | Fail(error: E) {

    predicate IsFailure() {
      Fail?
    }

    function PropagateFailure<U>(): Result<U, E>
      requires Fail?
    {
      Fail(error)
    }

    function Extract(): T
      requires Ok?
    {
      value
    }
  }
}
