/** Shared result types: the exit codes the command layer reports and the
    failure kinds that the core's exceptions carry, folded into one datatype. */
module Outcomes {

  datatype Option<T> = None | Some(value: T)

  /** The exit codes of the command-line tool, in enum order (0 to 7), plus
      ProgramSizeTooLarge, which the upload and hex-reading code use but the
      enum does not declare. */
  datatype ExitCode =
    | Success
    | ParseError
    | HexFileNotFound
    | InvalidHexFile
    | FailedToOpenCom
    | UploadCanceled
    | CommunicationError
    | Error
    | ProgramSizeTooLarge

  /** The two reasons the handshake gives for a DeviceErrorException. */
  datatype DeviceProblem = SignatureMismatch | BootResetDisabled

  /** Why something stopped short of success. One constructor per exception
      class the core throws, plus the cooperative cancellation and the
      catch-all for unclassified exceptions (for instance `.Last()` on an
      empty sequence, or a division by zero). */
  datatype Fault =
    | HexFileNotFound
    | InvalidHexFile
    | ProgramSizeTooLarge
    | ComPortTimeout
    | DeviceError(problem: DeviceProblem)
    | CommunicationFailed
    | Cancelled
    | Unclassified

  datatype Result<T> = Ok(value: T) | Fail(fault: Fault)

  /** The exit code the command handler reports for a fault: each exception
      carries the code it was constructed with, a cancellation becomes
      UploadCanceled and any other exception becomes Error. */
  function ExitCodeOf(f: Fault): (c: ExitCode)
    ensures c != ExitCode.Success
    ensures c == ExitCode.UploadCanceled <==> f == Cancelled
    ensures c == ExitCode.Error <==> f.DeviceError? || f == Unclassified
  {
    match f
    case HexFileNotFound => ExitCode.HexFileNotFound
    case InvalidHexFile => ExitCode.InvalidHexFile
    case ProgramSizeTooLarge => ExitCode.ProgramSizeTooLarge
    case ComPortTimeout => ExitCode.FailedToOpenCom
    case DeviceError(_) => ExitCode.Error
    case CommunicationFailed => ExitCode.CommunicationError
    case Cancelled => ExitCode.UploadCanceled
    case Unclassified => ExitCode.Error
  }
}
