/** The kernel return codes that the driver's decisions depend on. */
module Status {

  datatype Kr =
    | Success
    | Timeout
    | NotReady
    | BadArgument
    | Invalid
    | NoMemory
    | NoSpace
    | NoResources
    | Busy
    | IOError
    | Unsupported

  /** Any answer other than success or timeout: the request was refused and left no trace. */
  predicate Refused(kr: Kr) {
    !kr.Success? && !kr.Timeout?
  }

  datatype Option<+T> = None | Some(value: T)
}
