/** Failure-carrying return types shared by the modules of this model: the
    exceptions the C# code throws become `Failure`/`Fail` values. */
module Wrappers {

  datatype Option<+T> = None | Some(value: T)

  datatype Result<+R, +E> = Success(value: R) | Failure(error: E)

  datatype Outcome<+E> = Pass | Fail(error: E)
}
