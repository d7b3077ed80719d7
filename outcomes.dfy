/** Small value types shared by every module of the model. */
module Outcomes {

  /** A value that may be absent (Python's `None`). */
  datatype Option<+T> = None | Some(value: T)

  /** The outcome of an operation that either produces a value or fails with an error. */
  datatype Result<+R, +E> = Success(value: R) | Failure(error: E)

  /** What a control operation did to its target:
      `Changed` — the state flipped (paused, resumed, disabled, enabled, removed);
      `Unchanged` — the target was already in the requested state, success with no change;
      `NotFound` — no record or job has the given identifier. */
  datatype Effect = Changed | Unchanged | NotFound
}
