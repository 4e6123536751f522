/** Failure-compatible result types for the source's `Result` and `Option`. */
module Wrappers {

  /** The error kinds the modelled functions return; messages are not part of the model.
      `MappingOverflow` and `FrameLimit` separate two causes the source reports as
      `InvalidLayout` and `Unsupported`. */
  datatype Error =
    | InvalidSchema
    | InvalidCoord
    | InvalidLayout
    | Unsupported
    | WouldDensify
    | DataMismatch
    | MappingOverflow
    | FrameLimit

  datatype Option<+T> = None | Some(value: T)

  datatype Result<+T> = Ok(value: T) | Err(error: Error) {
    predicate IsFailure() {
      Err?
    }

    function PropagateFailure<U>(): Result<U>
      requires Err?
    {
      Err(error)
    }

    function Extract(): T
      requires Ok?
    {
      value
    }
  }

  datatype Outcome = Pass | Fail(error: Error) {
    predicate IsFailure() {
      Fail?
    }

    function PropagateFailure<U>(): Result<U>
      requires Fail?
    {
      Err(error)
    }
  }
}
