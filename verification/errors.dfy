/**
  The failure side of the cipher: the source raises `cipher_error` (an
  `invalid_argument`) with a message; here a rejected call returns `Err`.
 */
module CipherErrors {

  /** Why a call was rejected: a bad key at construction, or a bad text to encrypt or decrypt. */
  datatype CipherError = InvalidKey(message: string) | InvalidText(message: string)

  /** The outcome of a call that may be rejected; usable with `:-`. */
  datatype Result<T> = Ok(value: T) | Err(error: CipherError) {

    predicate IsFailure() {
      Err?
    }

    function PropagateFailure<U>(): Result<U>
      requires Err?
    {
      Err(error)
    }

    function Extract(): T
      requires Ok?
    {
      value
    }
  }
}
