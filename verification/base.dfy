/** Failure-carrying values shared by the whole model: Java's `null` and the
    exceptions the game and the automatic player throw. */
module Base {

  /** A value that may be absent (Java `null`). */
  datatype Option<+T> = None | Some(value: T)

  /** The exceptions raised by the modelled code. */
  datatype Exception =
    | LocationTaken   // MyGriglia.add on an occupied cell (RuntimeException)
    | IllegalState    // the blind strategies' "Something is broken!"
    | InvalidMove     // GameManager.autoMove on a code outside 0..3
    | IllegalArgument // HashMap(int) with a negative initial capacity

  /** The result of a call that returns normally or throws. */
  datatype Outcome<+T> = Ok(value: T) | Thrown(error: Exception)
}
