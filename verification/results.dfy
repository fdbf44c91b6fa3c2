/** Failure-compatible result type shared by the encoders and the assembler.
    Every exception the PHP code throws becomes an `Err` carrying one of the
    `Error` values below; a PHP warning that lets execution continue is not
    an error here. */
module Results {

  /** The exceptions of the pipeline, without their message texts. */
  datatype Error =
    | NonNumeric                         // NumberEncoder::encode on a non-digit string
    | CannotEncode(byte: nat)            // an encoder rejected a character
    | InvalidColumns(given: int)         // PDF417::setColumns out of range
    | InvalidSecurityLevel(given: int)   // PDF417::setSecurityLevel out of range
    | InvalidCodeWord(table: nat, word: nat)  // Codes::getCode outside its table

  datatype Result<+T> = Ok(value: T) | Err(error: Error) {

    predicate IsFailure() {
      Err?
    }

    function PropagateFailure<U>(): Result<U>
      requires Err?
    {
      Err(error)
    }

    function Extract(): T
      requires Ok?
    {
      value
    }
  }
}
