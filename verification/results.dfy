/** Optional values and error-carrying results shared by the whole model.
    The source signals failure three ways: a null pointer or empty optional
    (modelled by `Option`), a `false` return (a plain `bool`), and a thrown
    exception (modelled by `Result.Err` carrying the exception's kind). */
module Results {

  datatype Option<+T> = None | Some(value: T)

  /** The exception kinds the modelled code can throw. */
  datatype Error =
    | InvalidArgument   // std::invalid_argument: no socket with that name
    | OutOfRange        // std::vector::at with an index past the end
    | CycleDetected     // std::runtime_error from the topological sort
    | UnknownOperation  // std::runtime_error from an emitter's default case

  datatype Result<+T> = Ok(value: T) | Err(error: Error)
}
