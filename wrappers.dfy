/** Option and Result values used where the C++ returns a null pointer or throws. */
module Wrappers {
  datatype Option<+T> = None | Some(value: T)

  /** The failures the graph can report: `getEdge` throws `std::out_of_range` when the edge is absent. */
  datatype Failure = EdgeNotFound

  datatype Result<+T> = Ok(value: T) | Err(error: Failure)
}
