/** Failure-carrying wrappers shared by every module of the model. */
module Common {

  /** A reference that may be null: `None` stands for Java's `null`. */
  datatype Option<+T> = None | Some(value: T)

  /** The result of a call that either returns a value or throws. */
  datatype Result<+T> = Success(value: T) | Failure(error: Exc)

  /** The result of a `void` call that may throw. */
  datatype Outcome = Pass | Fail(error: Exc)

  /**
   * The exceptions the modelled code throws, by Java class.  The messages the
   * source builds with `String.format` are not modelled.
   */
  datatype Exc =
    | NegativeArraySize        // java.lang.NegativeArraySizeException
    | EventSpaceFull           // fsm.EventSpaceFullException
    | EventSpaceMismatch       // fsm.EventSpaceMismatchException
    | EventSpaceConflict       // fsm.EventSpaceConflictException
    | IndexOutOfBounds         // java.lang.IndexOutOfBoundsException
    | ArrayIndexOutOfBounds    // java.lang.ArrayIndexOutOfBoundsException
    | IllegalArgument          // java.lang.IllegalArgumentException
    | NullPointer              // java.lang.NullPointerException
    | Arithmetic               // java.lang.ArithmeticException (integer division by zero)
}
