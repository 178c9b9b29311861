/** Failure-compatible results and the error conditions the pipeline can raise. */
module Common {

  datatype Option<+T> = None | Some(value: T)

  /** The exceptions the Python code raises on the paths modelled here. */
  datatype Error =
    | ZeroDivision          // an integer divided by a genome size of 0
    | NoFlaggedPositions    // `assert len(peaks) > 0` in Macs2.call_peaks
    | MaskLengthMismatch    // a boolean index longer than the array it indexes
    | EmptyMedian           // `int(np.median([]))`: the median of no values is NaN

  datatype Result<+T> = Ok(value: T) | Err(error: Error)
}
