/** Option and Result, the two failure-carrying shapes the RON adapter uses.
    The adapter's errors are boxed foreign errors whose contents no property
    depends on, so `Err` carries nothing: only success or failure is modelled. */
module Wrappers {

  /** Rust's `Option<T>`. */
  datatype Option<+T> = None | Some(value: T)

  /** Rust's `Result<T, Box<dyn Error + Send + Sync>>` with the error contents
      dropped. The three members make it usable with `:-`, the counterpart of `?`. */
  datatype Result<+T> = Ok(value: T) | Err {

    predicate IsFailure() {
      Err?
    }

    function PropagateFailure<U>(): Result<U>
      requires Err?
    {
      Err
    }

    function Extract(): T
      requires Ok?
    {
      value
    }
  }
}
