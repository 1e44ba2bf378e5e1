/** Failure-compatible result type and the errors the imputer can raise. */
module Outcomes {

  datatype Option<+T> = None | Some(value: T)

  /** Either a value or the error that aborted the computation; usable with `:-`. */
  datatype Result<+T, +E> = Success(value: T) | Failure(error: E) {

    predicate IsFailure() {
      Failure?
    }

    function PropagateFailure<U>(): Result<U, E>
      requires Failure?
    {
      Failure(error)
    }

    function Extract(): T
      requires Success?
    {
      value
    }
  }

  /** The exceptions the imputer raises itself (collaborator failures are not modelled). */
  datatype MiceError =
    /** `ValueError("Invalid choice for visit order: %s")`, carrying the rejected choice. */
    | InvalidVisitOrder(choice: string)
    /** The `np.random.choice` on an empty neighbour list in predictive mean matching
        (k = 0: one observed row, or zero neighbours configured), for column `column`. */
    | NoNeighbours(column: nat)
    /** The `IndexError` of selecting the predictors of column `column` when the matrix
        has no other column: `other_cols` is then an empty float array, which numpy
        refuses as an index (or, when the predictors are subsampled, the correlations
        of a single column form a scalar that cannot be indexed by row and column). */
    | NoPredictors(column: nat)
}
