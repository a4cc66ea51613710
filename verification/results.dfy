/** Failure-carrying values shared by the whole model. */
module Results {

  /** A value that may be missing. */
  datatype Option<+T> = None | Some(value: T)

  /** The two Java exceptions the game can run into: `Scanner.nextLine` on an
      exhausted input, and `ArrayList.get` past the end of the shuffled riddle list. */
  datatype Error = NoSuchElement | IndexOutOfBounds

  /** Either a value or the exception that aborted the computation. */
  datatype Result<+T> = Success(value: T) | Failure(error: Error)
}
