/** The errors `eval` throws; only their kind is modelled. */
module Exceptions {

  datatype TRException =
    | NotDefinedOutput
    | DuplicatedOutput
    | NotCoveredCondition
    | NotMatchedColumnCount
    | DuplicatedCondition
    | NotCalledAsTagged

  /** The outcome of an evaluation: the returned value or the thrown error. */
  datatype Result<+T> = Ok(value: T) | Err(error: TRException)
}
