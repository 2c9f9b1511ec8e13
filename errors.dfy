/** Failure-carrying values shared by the pipeline's modules. */
module Errors {

  /** The ways one image's pipeline can stop. */
  datatype Error =
    | NotEnoughCorners  // fewer than four corner regions were found
    | EmptyPoints       // `reduce` over an empty point list has no value
    | NotCropped        // blocks were sought before the board was cropped

  datatype Option<+T> = None | Some(value: T)

  datatype Result<+T> = Ok(value: T) | Err(error: Error)

  /** The result of an operation that returns nothing but may fail. */
  datatype Outcome = Pass | Fail(error: Error)
}
