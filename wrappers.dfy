/** The success/failure value the model uses wherever the program raises an exception. */
module Wrappers {

  datatype Result<+T, +E> = Success(value: T) | Failure(error: E) {
    predicate IsFailure() {
      Failure?
    }
  }

  datatype Option<+T> = None | Some(value: T)
}
