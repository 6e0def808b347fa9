/** The error kinds the containers raise, and the results that carry them. */
module IcsErrors {

  /** Each kind stands for one exception class the containers throw. */
  datatype Error =
    | EmptyError                        // peek/dequeue on an empty queue
    | ConcurrentModificationError       // an iterator's generation no longer matches its container's
    | CannotEraseError                  // iterator erase after an erase, or at the end
    | IteratorPositionIllegal           // dereferencing a cursor at the end or mid catch-up
    | ComparingDifferentIteratorsError  // comparing cursors over two different containers

  /** A value, or the error that was raised instead. */
  datatype Result<T> = Ok(value: T) | Err(error: Error)

  /** Success without a value, or the error that was raised. */
  datatype Outcome = Pass | Fail(error: Error)
}
