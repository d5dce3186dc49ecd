/** Failure-carrying values shared by every part of the scoring model. */
module Outcomes {

  datatype Option<+T> = None | Some(value: T)

  /** The ways one scoring run can stop before it produces a report. */
  datatype Error =
    /** A timestamp that the fixed date format does not accept. */
    | MalformedTimestamp
    /** A result file whose series has no entry in the window table. */
    | UnknownSeries(path: string)
    /** A row whose ground-truth label disagrees with window membership. */
    | LabelWindowMismatch(path: string, at: int)

  datatype Result<+T> = Ok(value: T) | Err(error: Error)
}
