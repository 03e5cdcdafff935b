/** Optional values, results and pass/fail outcomes, used for the error paths
    that the Python source signals with `sys.exit` or an uncaught exception. */
module Wrappers {

  datatype Option<+T> = None | Some(value: T)

  datatype Result<+T, +E> = Success(value: T) | Failure(error: E)

  datatype Outcome<+E> = Pass | Fail(error: E)
}
