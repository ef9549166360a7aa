/** Failure-carrying values used by the graph operations: an absent map entry
    is `None`, and an operation that the C++ reports by throwing
    `std::runtime_error` returns `Err`. */
module Results {

  datatype Option<+T> = None | Some(value: T)

  datatype Result<+T, +E> = Ok(value: T) | Err(error: E)
}
