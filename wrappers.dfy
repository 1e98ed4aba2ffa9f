/** Option and Result, the two failure-carrying shapes the model uses in place
    of Go's `(value, error)` returns. */
module Wrappers {

  datatype Option<+T> = None | Some(value: T)

  /** `Failure` carries the error the Go code would have returned as non-nil. */
  datatype Result<+T, +E> = Ok(value: T) | Failure(error: E)
}

/** The errors the core reports. The first two stand for filesystem failures
    (`ioutil.ReadDir`, `os.Stat`), the others for an address the editor
    cannot evaluate. */
module Errors {
  datatype Error =
    | ReadDirFailed(path: string)
    | StatFailed(path: string)
    | AddressOutOfRange(line: nat)
    | NoMatch(level: nat)
    | NoRegionEnd(line: nat)
}
