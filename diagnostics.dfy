/** What the readme transformer's error() reports before it exits. */
module Diagnostics {
  /** The message and the source line (__LINE__) that error() prints. */
  datatype Diagnostic = Diagnostic(message: string, line: nat)
}
