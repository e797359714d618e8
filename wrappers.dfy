/** Optional values and results, as the Python driver's `None` returns and
    raised exceptions. */
module Wrappers {

  datatype Option<+T> = None | Some(value: T)

  datatype Result<+R, +E> = Success(value: R) | Failure(error: E)
}

/** The exceptions the driver can raise, by the Python exception that
    carries them. */
module Errors {

  datatype Error =
    | InterfaceSpecError(item: string)  // `item.split(",")` did not give exactly two parts (TypeError)
    | IndexError                        // the command output has too few rows or tokens
    | KeyError                          // a name or group missing from a dict lookup
    | TypeError                         // `",".join(None)` for a name that is in no group
    | RemoteError                       // the SSH command raised
}
