/** Failure handling for the homography core. Every `throw new Error(...)` of
    src/algebra.ts becomes one `Error` variant, carried by a `Result`. */
module Errors {

  /** The distinct ways an operation of the core can fail. */
  datatype Error =
    | NotSquare        // a row of the coefficient matrix has the wrong length
    | SizeMismatch     // the right-hand side does not have one entry per row
    | SingularSystem   // the best pivot of some column is below the tolerance
    | NotInvertible    // the determinant of a 3x3 matrix is below the tolerance
    | PointAtInfinity  // the homogeneous w of a mapped point is below the tolerance

  /** Either a value or the error that stopped the computation; usable with `:-`. */
  datatype Result<+T> = Success(value: T) | Failure(error: Error) {

    predicate IsFailure() {
      Failure?
    }

    function PropagateFailure<U>(): Result<U>
      requires Failure?
    {
      Failure(error)
    }

    function Extract(): T
      requires Success?
    {
      value
    }
  }
}
