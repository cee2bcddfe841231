/** Error classification of the command line tool (cmd/reckon/output.go). */
module Errors {
  /** The Go errors a stream can end with, seen through errors.Is and status.FromError. */
  datatype GoError =
    | CtxCanceled                         // context.Canceled
    | CtxDeadline                         // context.DeadlineExceeded
    | Status(code: nat, message: string)  // a gRPC status error, by numeric code
    | Plain(text: string)                 // any other error

  const CANCELED: nat := 1
  const INVALID_ARGUMENT: nat := 3
  const DEADLINE_EXCEEDED: nat := 4
  const NOT_FOUND: nat := 5
  const ALREADY_EXISTS: nat := 6
  const FAILED_PRECONDITION: nat := 9
  const UNAVAILABLE: nat := 14

  datatype CliError = CliError(code: string, msg: string, grpc: int, exit: int)

  /** err.Error() of an error that is not a gRPC status. */
  function Text(e: GoError): string
    requires !e.Status?
  {
    match e
    case CtxCanceled => "context canceled"
    case CtxDeadline => "context deadline exceeded"
    case Plain(text) => text
  }

  function FromGRPC(e: GoError): CliError {
    if !e.Status? then CliError("internal", Text(e), -1, 1)
    else if e.code == NOT_FOUND then CliError("not_found", e.message, e.code, 3)
    else if e.code == UNAVAILABLE then CliError("unavailable", e.message, e.code, 4)
    else if e.code == DEADLINE_EXCEEDED then CliError("timeout", e.message, e.code, 5)
    else if e.code == INVALID_ARGUMENT then CliError("invalid_argument", e.message, e.code, 7)
    else if e.code == FAILED_PRECONDITION then CliError("precondition", e.message, e.code, 8)
    else if e.code == ALREADY_EXISTS then CliError("already_exists", e.message, e.code, 9)
    else CliError("internal", e.message, e.code, 1)
  }

  predicate IsCanceled(e: GoError) {
    e.CtxCanceled? || (e.Status? && e.code == CANCELED)
  }

  /** The exit-code table of the command line tool's design document. */
  const DESIGN_TABLE: map<nat, (string, int)> :=
    map[3 := ("invalid_argument", 7), 4 := ("timeout", 5), 5 := ("not_found", 3),
        6 := ("already_exists", 9), 9 := ("precondition", 8), 14 := ("unavailable", 4)]

  /** How an error is to be reported: name and exit code by the table, anything else as
      internal with exit code 1, and always the error's own message. */
  predicate ReportedAs(e: GoError, ce: CliError) {
    && (ce.code, ce.exit) == (if e.Status? && e.code in DESIGN_TABLE then DESIGN_TABLE[e.code] else ("internal", 1))
    && match e
       case CtxCanceled => ce.msg == "context canceled" && ce.grpc == -1
       case CtxDeadline => ce.msg == "context deadline exceeded" && ce.grpc == -1
       case Status(code, message) => ce.msg == message && ce.grpc == code
       case Plain(text) => ce.msg == text && ce.grpc == -1
  }

  /** Errors are reported so, and the exit code alone tells which code name was printed. */
  lemma MappedByTheTable(e: GoError, e': GoError)
    ensures ReportedAs(e, FromGRPC(e))
    ensures FromGRPC(e).exit == FromGRPC(e').exit <==> FromGRPC(e).code == FromGRPC(e').code
  {
    assert forall c :: c in DESIGN_TABLE <==> c in {3, 4, 5, 6, 9, 14};
    CodeNamesDiffer();
  }

  lemma CodeNamesDiffer()
    ensures |"invalid_argument"| == 16 && |"timeout"| == 7 && |"not_found"| == 9 && |"already_exists"| == 14
    ensures |"precondition"| == 12 && |"unavailable"| == 11 && |"internal"| == 8
  {
  }
}
