/** Construction-time validation shared by the four generator factories. */
module Validation {

  /** The one error a factory reports (`errInvalidLength`). */
  datatype Error = ErrInvalidLength

  /** What a factory returns: a generator, or an error and no generator. */
  datatype Result<T> = Success(value: T) | Failure(error: Error)

  /** `invalidLength`: IDs shorter than 2 or longer than 255 units are refused. */
  predicate InvalidLength(length: int)
  {
    length < 2 || length > 255
  }

  /** The lengths the package's tests try: -1, 1 and 256 are refused, 21 is accepted. */
  lemma TestedLengths()
    ensures InvalidLength(-1) && InvalidLength(1) && InvalidLength(256)
    ensures !InvalidLength(21) && !InvalidLength(2) && !InvalidLength(255)
  {
  }
}
