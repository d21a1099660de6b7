/** Optional values and the failures numpy raises at run time instead of returning a buffer. */
module Wrappers {

  datatype Option<+T> = None | Some(value: T)

  /** The exceptions raised on the paths the model covers. */
  datatype Error =
    | EmptyReduction      // np.max over a zero-size array
    | NegativeDimensions  // np.zeros with a negative sample count
    | EmptySamplePoints   // np.interp with no sample points
    | NoSegments          // the ValueError raised for an empty segment list

  datatype Result<+T> = Ok(value: T) | Err(error: Error)
}
