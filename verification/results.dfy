/** Optional values and the one uncaught failure of the estimation pipeline. */
module Results {

  /** A value that may be missing: a field absent from the record, a value
      `pd.isna` reports as missing, or a field that failed to parse. */
  datatype Option<+T> = None | Some(value: T)

  /** The only error that escapes the pipeline: when the grid search selects
      no candidate, the winner variables of `calc_emi` are never bound and
      reading them raises outside any exception handler. */
  datatype Error = UnboundWinner

  datatype Result<+T> = Success(value: T) | Failure(error: Error)
}
