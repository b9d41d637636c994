/** The error-result value that stands in for the program's fatal exits:
    where the program logs a message and terminates, the model returns a
    Failure carrying what the message reports. */
module Results {

  datatype Result<+T, +E> = Success(value: T) | Failure(error: E)
}
