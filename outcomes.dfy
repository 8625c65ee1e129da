/** The errors the grid CRF raises, and a result type to carry them. */
module Outcomes {

  datatype Error =
    | NeighborhoodError                          // `pairwise_grid_features`: neither 4 nor 8
    | FeatureCountError(expected: nat, got: nat) // `_check_size_x`: last axis of x is not n_features
    | LabelOutOfRange                            // a label is not a valid index into the states
    | BroadcastError                             // `x_flat * unary_marginals`: shapes do not broadcast

  datatype Result<T> = Ok(value: T) | Err(error: Error)

  /** An optional argument: Python's `None` or a value. */
  datatype Option<T> = None | Some(value: T)
}
