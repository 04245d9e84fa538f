/** Panics of the library, modelled as values. Every `panic!` and every
    out-of-range `Vec` index of the source becomes an `Err` whose kind says
    which check failed. */
module Outcomes {

  /** The kinds of panic the core can raise. */
  datatype Error =
    | ShapeMismatch      // an explicit shape comparison failed
    | IndexOutOfRange    // a `Vec` was indexed past its length
    | MissingDimension   // Tensor::get_index got a coordinate vector of the wrong length
    | InvalidCoordinate  // Tensor::get_index got a coordinate past its dimension
    | Underflow          // `crds.len() - 1` on an empty coordinate vector
    | EmptyVector        // Vector::max_norm of an empty vector

  datatype Result<T> = Ok(value: T) | Err(error: Error)

  datatype Option<T> = None | Some(value: T)
}
