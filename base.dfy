/** Values shared by every stage of the sunset analysis: optional results, the
    failures a stage can raise, and absolute value on reals. */
module Base {

  /** A value that may be absent, as Python's `None`. */
  datatype Option<+T> = None | Some(value: T)

  /** The exceptions the pipeline can raise before producing a result. */
  datatype Failure =
    | YearOutOfRange    // datetime(year, 1, 1) rejects a year outside 1..9999
    | DateOverflow      // adding one day to 9999-12-31 leaves the datetime range
    | IndexOutOfRange   // a list index past the end
    | EmptySequence     // argmax / argmin / min / max of an empty sequence

  /** The outcome of a stage: its value, or the failure it raised. */
  datatype Result<+T> = Ok(value: T) | Err(error: Failure)

  function Abs(x: real): real
  {
    if x < 0.0 then -x else x
  }
}
