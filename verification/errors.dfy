/** The error taxonomy of the tool: a free-text message, a failed I/O call or a
    failed integer parse (the three kinds of `src/error.rs`). Messages are kept
    structured instead of formatted, so that a proof can tell them apart. */
module Errors {

  /** The I/O conditions the model distinguishes. `NoDevice` is the kernel's
      ENXIO, which a physically absent sensor channel reports; `PermissionDenied`
      is the error kind the watchdog probe looks for. */
  datatype IoKind = NoDevice | PermissionDenied | NotFound | OtherIo

  datatype Message =
    | EmptyFile
    | UnrecognizedHwmonLevel(level: nat)
    | UnrecognizedPwmMode(mode: nat)

  datatype Error = Msg(message: Message) | Io(kind: IoKind) | Parse

}
