/** Outcomes of the staging guard: a value, or an error of one of the kinds the
    transport layer keeps apart (format errors are reported verbatim, security
    errors are logged at elevated severity). */
module Outcomes {

  datatype Option<+T> = None | Some(value: T)

  /** The rule an input violated; one constructor per raise site of the guard. */
  datatype Rule =
    | Required
    | ProjectIdFormat
    | ProjectIdLeadingChar
    | ProjectIdReserved
    | EmptyAfterNormalization
    | ForbiddenPattern(pattern: string)
    | FilenameFormat
    | EmptyComponent
    | ReservedComponent(part: string)
    | HiddenComponent(part: string)
    | IgnoredPattern
    | InvalidPath
    | PathTraversal
    | SymlinkInPath(link: seq<string>)
    | VendorIdLength
    | NotGitHubUrl
    | MissingOwnerOrRepo
    | UnknownSnapshotType

  /** `ValidationError` is the format kind, `SecurityError` the security kind.
      `UncaughtOSError` stands for an OSError the guard lets escape without
      converting it (the transport reports it as an internal error). */
  datatype Error =
    | ValidationError(rule: Rule)
    | SecurityError(rule: Rule)
    | UncaughtOSError

  /** Failure-compatible result, so that validators chain with `:-`. */
  datatype Result<+T> = Ok(value: T) | Err(error: Error) {

    predicate IsFailure() {
      Err?
    }

    function PropagateFailure<U>(): Result<U>
      requires Err?
    {
      Err(error)
    }

    function Extract(): T
      requires Ok?
    {
      value
    }
  }
}
